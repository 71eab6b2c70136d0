/** Aliases of pins (src/hal/hal_lib.c, `hal_pin_alias`): all or nothing, and undone by removal. */
module HalAlias {
  import opened Lists
  import opened Names
  import opened Shmem
  import opened Hal
  import opened HalInv
  import opened HalOps

  // ------------------------------------------------------------------- results

  /** A refused alias call changes no pin, no signal, no component and no value. */
  lemma RefusedAliasChangesNothing(st: State, pinName: string, alias: Option<string>)
    requires Inv(st) && PinAlias(st, pinName, alias).1.Err?
    ensures var st' := PinAlias(st, pinName, alias).0;
            st'.pins == st.pins && st'.sigs == st.sigs && st'.comps == st.comps && st'.cells == st.cells
  {
    AllocOldNameKeepsInv(st);
  }

  /**
   Once the first old-name structure has been obtained and put back, a second one is there:
   the free list is not empty and its head is the structure just put back.
   */
  lemma SecondAllocCannotFail(st: State)
    requires Inv(st) && AllocOldName(st).1 != 0
    ensures var (st1, o) := AllocOldName(st);
            var st2 := FreeOldName(st1, o);
            && st2.oldFree == o && o in st2.olds
            && AllocOldName(st2).1 == o && AllocOldName(st2).0.arena == st1.arena
  {
    AllocOldNameKeepsInv(st);
  }

  // ------------------------------------------------------- ownership of old names

  /** `fs` is the free list that starts at `head`. */
  ghost predicate FreeChain(olds: map<Off, OldName>, head: Off, fs: seq<Off>)
    decreases fs
  {
    if fs == [] then head == 0
    else head == fs[0] && head != 0 && head in olds && FreeChain(olds, olds[head].next, fs[1..])
  }

  /**
   The free list of old names ends; only listed pins hold old names, each its own, and none
   of those is on the free list.
   */
  ghost predicate OldInvWith(st: State, fs: seq<Off>) {
    && FreeChain(st.olds, st.oldFree, fs) && Distinct(fs)
    && (forall p :: p in st.pins.items && st.pins.items[p].oldname != 0 ==>
          p in st.pins.list && st.pins.items[p].oldname !in fs)
    && (forall p, q :: p in st.pins.items && q in st.pins.items && p != q && st.pins.items[p].oldname != 0 ==>
          st.pins.items[p].oldname != st.pins.items[q].oldname)
    && (forall o :: o in st.held ==> o !in fs)
    && (forall p :: p in st.pins.items && st.pins.items[p].oldname != 0 ==> st.pins.items[p].oldname !in st.held)
  }

  ghost predicate OldInv(st: State) {
    exists fs :: OldInvWith(st, fs)
  }

  /** The name a pin was created with. */
  function OriginalName(st: State, p: Off): string
    requires p in st.pins.items
  {
    var pin := st.pins.items[p];
    if pin.oldname == 0 || pin.oldname !in st.olds then pin.name else st.olds[pin.oldname].name
  }

  lemma {:induction false} FreeChainFrame(olds: map<Off, OldName>, olds': map<Off, OldName>, head: Off, fs: seq<Off>)
    requires FreeChain(olds, head, fs)
    requires forall o :: o in fs && o in olds ==> o in olds' && olds'[o].next == olds[o].next
    ensures FreeChain(olds', head, fs)
    decreases fs
  {
    if fs != [] {
      assert fs[0] in fs;
      FreeChainFrame(olds, olds', olds[head].next, fs[1..]);
    }
  }

  lemma {:induction false} FreeChainMembers(olds: map<Off, OldName>, head: Off, fs: seq<Off>)
    requires FreeChain(olds, head, fs)
    ensures forall o :: o in fs ==> o in olds && o != 0
    decreases fs
  {
    if fs != [] {
      FreeChainMembers(olds, olds[head].next, fs[1..]);
      assert fs == [fs[0]] + fs[1..];
    }
  }

  /** Calls that leave the saved names and who holds them alone. */
  lemma OldInvFrame(st: State, st': State, fs: seq<Off>)
    requires OldInvWith(st, fs) && st'.olds == st.olds && st'.oldFree == st.oldFree && st'.held == st.held
    requires forall p :: p in st'.pins.items && st'.pins.items[p].oldname != 0 ==>
               p in st.pins.items && st.pins.items[p].oldname == st'.pins.items[p].oldname && p in st'.pins.list
    ensures OldInvWith(st', fs)
  {
  }

  /** Taking a structure off the free list, or from fresh memory. */
  lemma AllocOldNameOwnership(st: State, fs: seq<Off>) returns (fs': seq<Off>)
    requires Inv(st) && OldInvWith(st, fs) && AllocOldName(st).1 != 0
    ensures var (st', o) := AllocOldName(st);
            && OldInvWith(st', fs') && o !in fs' && o !in st.held
            && (forall p :: p in st.pins.items && st.pins.items[p].oldname != 0 ==> st.pins.items[p].oldname != o)
            && (forall x :: x in fs' ==> x in fs)
            && (forall x :: x in st.olds && x != o ==> x in st'.olds && st'.olds[x] == st.olds[x])
  {
    var (st', o) := AllocOldName(st);
    FreeChainMembers(st.olds, st.oldFree, fs);
    if st.oldFree != 0 {
      fs' := fs[1..];
      assert fs[0] in fs;
      assert forall x :: x in fs' ==> x in fs && x != o;
      FreeChainFrame(st.olds, st'.olds, st.olds[o].next, fs');
    } else {
      AllocDownExact(st.arena, OLDNAME_SIZE);
      fs' := fs;
      assert fs == [];
      assert o !in st.olds;
    }
  }

  /** Putting back a structure that nobody holds. */
  lemma FreeOldNameOwnership(st: State, o: Off, fs: seq<Off>)
    requires OldInvWith(st, fs) && o != 0 && o !in fs && o !in st.held
    requires forall p :: p in st.pins.items && st.pins.items[p].oldname != 0 ==> st.pins.items[p].oldname != o
    ensures OldInvWith(FreeOldName(st, o), [o] + fs)
  {
    var st' := FreeOldName(st, o);
    FreeChainFrame(st.olds, st'.olds, st.oldFree, fs);
    assert ([o] + fs)[1..] == fs;
  }

  // ------------------------------------------------------------------ renaming

  /** Every pin keeps its original name and every pin but `p` its structure. */
  ghost predicate NamesKept(st: State, st': State, p: Off) {
    && st'.pins.items.Keys == st.pins.items.Keys
    && (forall q :: q in st.pins.items && q in st'.pins.items ==> OriginalName(st', q) == OriginalName(st, q))
    && (forall q :: q in st.pins.items && q in st'.pins.items && q != p ==> st'.pins.items[q] == st.pins.items[q])
  }

  /** The pin bears the alias, or its original name again if the alias was removed. */
  predicate Renamed(st: State, st': State, p: Off, alias: Option<string>)
    requires p in st.pins.items && p in st'.pins.items
  {
    match alias
    case Some(name) => st'.pins.items[p].name == name && st'.pins.items[p].oldname != 0
    case None => st'.pins.items[p].name == OriginalName(st, p) && st'.pins.items[p].oldname == 0
  }

  /** What saving a name does to the tables. */
  lemma SaveNameFields(st: State, p: Off, name: string)
    requires OldRefs(st) && st.oldFree != 0 && p in st.pins.items && st.pins.items[p].oldname == 0
    ensures var st' := Rename(st, p, Some(name));
            var o, pin := st.oldFree, st.pins.items[p];
            && st'.pins == st.pins.(items := st.pins.items[p := pin.(oldname := o, name := name)])
            && st'.olds == st.olds[o := OldName(pin.name, 0)] && st'.oldFree == st.olds[o].next && st'.held == st.held
  {
  }

  lemma SaveNameOwnership(st: State, p: Off, name: string, fs: seq<Off>, st': State)
    requires OldRefs(st) && OldInvWith(st, fs) && st.oldFree != 0 && p in st.pins.items && p in st.pins.list
    requires st.pins.items[p].oldname == 0
    requires var o, pin := st.oldFree, st.pins.items[p];
             && st'.pins == st.pins.(items := st.pins.items[p := pin.(oldname := o, name := name)])
             && st'.olds == st.olds[o := OldName(pin.name, 0)] && st'.oldFree == st.olds[o].next && st'.held == st.held
    ensures fs != [] && OldInvWith(st', fs[1..])
  {
    assert fs[0] in fs;
    var rest := fs[1..];
    assert forall x :: x in rest ==> x in fs && x != st.oldFree;
    FreeChainFrame(st.olds, st'.olds, st.olds[st.oldFree].next, rest);
  }

  lemma SaveNameNames(st: State, p: Off, name: string, fs: seq<Off>, st': State)
    requires OldRefs(st) && OldInvWith(st, fs) && st.oldFree != 0 && p in st.pins.items
    requires st.pins.items[p].oldname == 0
    requires var o, pin := st.oldFree, st.pins.items[p];
             && st'.pins == st.pins.(items := st.pins.items[p := pin.(oldname := o, name := name)])
             && st'.olds == st.olds[o := OldName(pin.name, 0)]
    ensures NamesKept(st, st', p) && Renamed(st, st', p, Some(name))
  {
    assert fs[0] in fs;
    forall q | q in st.pins.items
      ensures OriginalName(st', q) == OriginalName(st, q)
    {
    }
  }

  /** What restoring a name does to the tables. */
  lemma RestoreNameFields(st: State, p: Off)
    requires OldRefs(st) && st.oldFree != 0 && p in st.pins.items && st.pins.items[p].oldname != 0
    ensures var st' := Rename(st, p, None);
            var pin := st.pins.items[p];
            && st'.pins == st.pins.(items := st.pins.items[p := pin.(oldname := 0, name := st.olds[pin.oldname].name)])
            && st'.olds == st.olds[pin.oldname := OldName("", st.oldFree)] && st'.oldFree == pin.oldname && st'.held == st.held
  {
  }

  lemma RestoreNameOwnership(st: State, p: Off, fs: seq<Off>, st': State)
    requires OldRefs(st) && OldInvWith(st, fs) && p in st.pins.items && st.pins.items[p].oldname != 0
    requires var pin := st.pins.items[p];
             && st'.pins == st.pins.(items := st.pins.items[p := pin.(oldname := 0, name := st.olds[pin.oldname].name)])
             && st'.olds == st.olds[pin.oldname := OldName("", st.oldFree)] && st'.oldFree == pin.oldname && st'.held == st.held
    ensures OldInvWith(st', [st.pins.items[p].oldname] + fs)
  {
    var o := st.pins.items[p].oldname;
    FreeChainFrame(st.olds, st'.olds, st.oldFree, fs);
    assert ([o] + fs)[1..] == fs;
  }

  lemma RestoreNameNames(st: State, p: Off, fs: seq<Off>, st': State)
    requires OldRefs(st) && OldInvWith(st, fs) && p in st.pins.items && st.pins.items[p].oldname != 0
    requires var pin := st.pins.items[p];
             && st'.pins == st.pins.(items := st.pins.items[p := pin.(oldname := 0, name := st.olds[pin.oldname].name)])
             && st'.olds == st.olds[pin.oldname := OldName("", st.oldFree)]
    ensures NamesKept(st, st', p) && Renamed(st, st', p, None)
  {
    forall q | q in st.pins.items
      ensures OriginalName(st', q) == OriginalName(st, q)
    {
    }
  }

  lemma RenameOwnership(st: State, p: Off, alias: Option<string>, fs: seq<Off>, st': State) returns (fs': seq<Off>)
    requires OldRefs(st) && OldInvWith(st, fs) && st.oldFree != 0 && p in st.pins.list && p in st.pins.items
    requires st' == Rename(st, p, alias)
    ensures OldInvWith(st', fs') && NamesKept(st, st', p) && Renamed(st, st', p, alias)
  {
    if alias.Some? && st.pins.items[p].oldname == 0 {
      SaveNameFields(st, p, alias.value);
      SaveNameOwnership(st, p, alias.value, fs, st');
      SaveNameNames(st, p, alias.value, fs, st');
      fs' := fs[1..];
    } else if alias.None? && st.pins.items[p].oldname != 0 {
      RestoreNameFields(st, p);
      RestoreNameOwnership(st, p, fs, st');
      RestoreNameNames(st, p, fs, st');
      fs' := [st.pins.items[p].oldname] + fs;
    } else {
      fs' := fs;
    }
  }

  /** Realiasing is renaming, and moving the pin to where its new name belongs. */
  lemma RealiasSteps(st: State, p: Off, alias: Option<string>)
    requires Inv(st) && p in st.pins.list && st.oldFree != 0
    ensures var st', st1 := Realias(st, p, alias), Rename(st, p, alias);
            && st' == st1.(pins := st1.pins.(list := st'.pins.list))
            && st1.pins.list == st.pins.list
            && (forall q :: q in st'.pins.list <==> q in st.pins.list)
  {
    DetachMembers(st.pins, p);
    RealiasMoves(st, p, alias);
    MovedKeepsListInv(st, Realias(st, p, alias), p);
  }

  lemma RealiasOwnership(st: State, p: Off, alias: Option<string>, fs: seq<Off>) returns (fs': seq<Off>)
    requires Inv(st) && OldInvWith(st, fs) && st.oldFree != 0 && p in st.pins.list
    ensures var st' := Realias(st, p, alias);
            OldInvWith(st', fs') && NamesKept(st, st', p) && p in st'.pins.items && Renamed(st, st', p, alias)
  {
    var st1 := Rename(st, p, alias);
    RealiasSteps(st, p, alias);
    fs' := RenameOwnership(st, p, alias, fs, st1);
    ReorderOwnership(st, st1, Realias(st, p, alias), p, alias, fs');
  }

  lemma ReorderOwnership(st: State, st1: State, st': State, p: Off, alias: Option<string>, fs: seq<Off>)
    requires OldInvWith(st1, fs) && NamesKept(st, st1, p) && p in st.pins.items && Renamed(st, st1, p, alias)
    requires st' == st1.(pins := st1.pins.(list := st'.pins.list))
    requires forall q :: q in st1.pins.list ==> q in st'.pins.list
    ensures OldInvWith(st', fs) && NamesKept(st, st', p) && p in st'.pins.items && Renamed(st, st', p, alias)
  {
  }

  lemma ReserveChain(st: State, fs: seq<Off>) returns (fs': seq<Off>)
    requires Inv(st) && OldInvWith(st, fs) && AllocOldName(st).1 != 0
    ensures var (st1, o) := AllocOldName(st);
            OldInvWith(FreeOldName(st1, o), fs')
  {
    var (st1, o) := AllocOldName(st);
    fs' := AllocOldNameOwnership(st, fs);
    FreeOldNameOwnership(st1, o, fs');
    fs' := [o] + fs';
  }

  /** Every name that a pin holds is the same in both states. */
  ghost predicate HeldNamesSame(st: State, st': State) {
    forall q :: q in st.pins.items && st.pins.items[q].oldname != 0 ==>
      && st.pins.items[q].oldname in st.olds && st.pins.items[q].oldname in st'.olds
      && st'.olds[st.pins.items[q].oldname].name == st.olds[st.pins.items[q].oldname].name
  }

  lemma ReserveNames(st: State, fs: seq<Off>)
    requires Inv(st) && OldInvWith(st, fs) && AllocOldName(st).1 != 0
    ensures var (st1, o) := AllocOldName(st);
            HeldNamesSame(st, FreeOldName(st1, o))
  {
    var fs' := AllocOldNameOwnership(st, fs);
  }

  /** Obtaining an old-name structure and putting it back touches no name that a pin holds. */
  lemma ReserveOwnership(st: State, fs: seq<Off>) returns (fs': seq<Off>)
    requires Inv(st) && OldInvWith(st, fs) && AllocOldName(st).1 != 0
    ensures var (st1, o) := AllocOldName(st);
            var st2 := FreeOldName(st1, o);
            && Inv(st2) && OldInvWith(st2, fs') && NamesKept(st, st2, 0) && st2.pins == st.pins && st2.oldFree != 0
            && HeldNamesSame(st, st2)
  {
    var (st1, o) := AllocOldName(st);
    AllocOldNameKeepsInv(st);
    FreeOldNameKeepsInv(st1, o);
    fs' := ReserveChain(st, fs);
    ReserveNames(st, fs);
  }

  /** The lookup by name sees names only. */
  lemma {:induction false} FindPinFrame(list: seq<Off>, items: map<Off, Pin>, olds: map<Off, OldName>,
                                        olds': map<Off, OldName>, name: string)
    requires forall x :: x in list ==> x in items
    requires forall x :: x in list && items[x].oldname != 0 ==>
               && items[x].oldname in olds && items[x].oldname in olds'
               && olds'[items[x].oldname].name == olds[items[x].oldname].name
    ensures FindPin(list, items, olds', name) == FindPin(list, items, olds, name)
  {
    if list != [] {
      assert list[0] in list;
      FindPinFrame(list[1..], items, olds, olds', name);
    }
  }

  /** The pin stands where the insertion loop puts it among the others. */
  ghost predicate Placed(pins: Pool<Pin>, p: Off)
    requires PoolOk(pins) && p in pins.list
  {
    DetachMembers(pins, p);
    var rest := Detach(pins, p).list;
    pins.list == Insert(rest, Place(PinNames(rest, pins.items), pins.items[p].name), p)
  }

  /** The two pools differ in the name of `p`, and so perhaps in its position, only. */
  ghost predicate SameButName(pins: Pool<Pin>, pins': Pool<Pin>, p: Off) {
    && p in pins.list && p in pins'.list && p in pins.items && p in pins'.items
    && pins'.items == pins.items[p := pins.items[p].(name := pins'.items[p].name, oldname := pins'.items[p].oldname)]
    && Detach(pins', p).list == Detach(pins, p).list && pins'.free == pins.free
  }

  lemma DetachInserted(list: seq<Off>, i: nat, x: Off)
    requires i <= |list| && x !in list
    ensures x in Insert(list, i, x) && Remove(Insert(list, i, x), IndexOf(Insert(list, i, x), x)) == list
  {
    var l := Insert(list, i, x);
    assert l[i] == x;
    assert forall k :: 0 <= k < |l| && l[k] == x ==> k == i;
  }

  lemma RealiasPlaces(st: State, p: Off, alias: Option<string>)
    requires ListInv(st) && p in st.pins.list && st.oldFree != 0
    ensures var pins' := Realias(st, p, alias).pins;
            SameButName(st.pins, pins', p) && PoolOk(pins') && Placed(pins', p)
  {
    var pins, pins' := st.pins, Realias(st, p, alias).pins;
    RealiasMoves(st, p, alias);
    MovedKeepsListInv(st, Realias(st, p, alias), p);
    DetachMembers(pins, p);
    var rest := Detach(pins, p).list;
    DetachInserted(rest, Place(PinNames(rest, pins.items), pins'.items[p].name), p);
    assert PinNames(rest, pins'.items) == PinNames(rest, pins.items);
  }

  /** The pin that a name resolves to. */
  function Resolve(st: State, pinName: string): (p: Off)
    requires forall x :: x in st.pins.list ==> x in st.pins.items
  {
    FindPin(st.pins.list, st.pins.items, st.olds, pinName)
  }

  /** What a successful call has done to the pin it found. */
  ghost predicate Aliased(st: State, st': State, p: Off, alias: Option<string>) {
    && OldInv(st') && SameButName(st.pins, st'.pins, p) && PoolOk(st'.pins) && Placed(st'.pins, p)
    && NamesKept(st, st', p) && Renamed(st, st', p, alias)
  }

  lemma RealiasAliases(st: State, p: Off, alias: Option<string>, fs: seq<Off>)
    requires Inv(st) && OldInvWith(st, fs) && st.oldFree != 0 && p in st.pins.list
    ensures Aliased(st, Realias(st, p, alias), p, alias)
  {
    var fs' := RealiasOwnership(st, p, alias, fs);
    RealiasPlaces(st, p, alias);
  }

  lemma AliasedFrom(st: State, st2: State, st': State, p: Off, alias: Option<string>)
    requires st2.pins == st.pins && NamesKept(st, st2, 0) && Aliased(st2, st', p, alias)
    ensures Aliased(st, st', p, alias)
  {
  }

  /**
   A successful alias call keeps the original name of every pin, gives the pin it found its
   alias (or its original name back), puts it where that name belongs, and changes no other
   pin.
   */
  lemma AliasExact(st: State, pinName: string, alias: Option<string>)
    requires Inv(st) && OldInv(st) && PinAlias(st, pinName, alias).1.Ok?
    ensures var p := Resolve(st, pinName);
            p != 0 && Aliased(st, PinAlias(st, pinName, alias).0, p, alias)
  {
    var fs :| OldInvWith(st, fs);
    var (st1, o) := AllocOldName(st);
    var fs2 := ReserveOwnership(st, fs);
    var st2 := FreeOldName(st1, o);
    FindPinFrame(st.pins.list, st.pins.items, st.olds, st2.olds, pinName);
    var p := Resolve(st, pinName);
    RealiasAliases(st2, p, alias, fs2);
    AliasedFrom(st, st2, Realias(st2, p, alias), p, alias);
  }

  // -------------------------------------------------------------- alias chains

  datatype AliasCall = AliasCall(pinName: string, alias: Option<string>)

  /** A successful call that finds the pin `p`. */
  ghost predicate AliasStep(st: State, call: AliasCall, p: Off, st': State) {
    && Inv(st) && Resolve(st, call.pinName) == p
    && PinAlias(st, call.pinName, call.alias) == (st', Ok)
  }

  /** Successful calls one after the other, each on the pin `p` under whatever name it then answers to. */
  ghost predicate AliasChain(states: seq<State>, calls: seq<AliasCall>, p: Off) {
    && |states| == |calls| + 1
    && forall i :: 0 <= i < |calls| ==> AliasStep(states[i], calls[i], p, states[i + 1])
  }

  lemma StepAliases(st: State, call: AliasCall, p: Off, st': State)
    requires AliasStep(st, call, p, st') && OldInv(st)
    ensures Inv(st') && Aliased(st, st', p, call.alias)
  {
    PinAliasKeepsInv(st, call.pinName, call.alias);
    AliasExact(st, call.pinName, call.alias);
  }

  lemma StepExtends(st: State, st1: State, st2: State, p: Off, first: Option<string>, call: AliasCall)
    requires Aliased(st, st1, p, first) && AliasStep(st1, call, p, st2)
    ensures Aliased(st, st2, p, call.alias)
  {
    StepAliases(st1, call, p, st2);
    AliasedTwice(st, st1, st2, p, first, call.alias);
  }

  /** The first `n` calls together act on the pin as the last of them would have done. */
  lemma {:induction false} ChainAliases(states: seq<State>, calls: seq<AliasCall>, p: Off, n: nat)
    requires AliasChain(states, calls, p) && OldInv(states[0]) && 1 <= n <= |calls|
    ensures Aliased(states[0], states[n], p, calls[n - 1].alias)
  {
    var k := n - 1;
    assert AliasStep(states[k], calls[k], p, states[k + 1]);
    if n == 1 {
      StepAliases(states[0], calls[0], p, states[1]);
    } else {
      ChainAliases(states, calls, p, k);
      StepExtends(states[0], states[k], states[n], p, calls[k - 1].alias, calls[k]);
    }
  }

  lemma NamesKeptTwice(st: State, st1: State, st2: State, p: Off)
    requires NamesKept(st, st1, p) && NamesKept(st1, st2, p)
    ensures NamesKept(st, st2, p)
  {
    forall q | q in st.pins.items && q in st2.pins.items
      ensures OriginalName(st2, q) == OriginalName(st, q)
    {
      assert q in st1.pins.items.Keys;
    }
    forall q | q in st.pins.items && q in st2.pins.items && q != p
      ensures st2.pins.items[q] == st.pins.items[q]
    {
      assert q in st1.pins.items.Keys;
    }
  }

  lemma SameButNameTwice(pins: Pool<Pin>, pins1: Pool<Pin>, pins2: Pool<Pin>, p: Off)
    requires SameButName(pins, pins1, p) && SameButName(pins1, pins2, p)
    ensures SameButName(pins, pins2, p)
  {
  }

  lemma AliasedTwice(st: State, st1: State, st2: State, p: Off, first: Option<string>, second: Option<string>)
    requires Aliased(st, st1, p, first) && Aliased(st1, st2, p, second)
    ensures Aliased(st, st2, p, second)
  {
    NamesKeptTwice(st, st1, st2, p);
    SameButNameTwice(st.pins, st1.pins, st2.pins, p);
  }

  /** In a sorted list a name stands where the loop would put it unless an equal one follows it. */
  lemma PlaceOfRemoved(all: seq<string>, i: nat)
    requires Sorted(all) && i < |all|
    ensures Place(Remove(all, i), all[i]) == i <==> forall j :: i < j < |all| ==> all[j] != all[i]
  {
    var names, name := Remove(all, i), all[i];
    assert forall k :: i <= k < |names| ==> names[k] == all[k + 1];
    if forall j :: i < j < |all| ==> all[j] != name {
      if i < |names| {
        assert AtMost(name, all[i + 1]);
        LessTotal(name, all[i + 1]);
      }
      PlaceIs(names, name, i);
    } else {
      var j :| i < j < |all| && all[j] == name;
      assert names[j - 1] == name;
      SortedAfterRemove(all, i);
      OccursBeforePlace(names, name, j - 1);
    }
  }

  /** Putting an element back where it was gives the same list, and only there. */
  lemma ReinsertIff(list: seq<Off>, x: Off, at: nat)
    requires Distinct(list) && x in list && at < |list|
    ensures var i := IndexOf(list, x); Insert(Remove(list, i), at, x) == list <==> at == i
  {
    var i := IndexOf(list, x);
    assert Insert(Remove(list, i), i, x) == list;
    assert Insert(Remove(list, i), at, x)[at] == x;
  }

  lemma PlacedMeans(pins: Pool<Pin>, p: Off)
    requires PoolOk(pins) && p in pins.list
    ensures var names := PinNames(pins.list, pins.items);
            var i := IndexOf(pins.list, p);
            i < |names| && (Placed(pins, p) <==> Place(Remove(names, i), names[i]) == i)
  {
    var i, all := IndexOf(pins.list, p), PinNames(pins.list, pins.items);
    DetachMembers(pins, p);
    PinNamesRemove(pins.list, pins.items, i);
    ReinsertIff(pins.list, p, Place(Remove(all, i), all[i]));
  }

  /** No pin that stands behind `p` has the same name. */
  ghost predicate LastOfItsName(pins: Pool<Pin>, p: Off)
    requires PoolOk(pins) && p in pins.list
  {
    var names, i := PinNames(pins.list, pins.items), IndexOf(pins.list, p);
    forall j :: i < j < |names| ==> names[j] != names[i]
  }

  lemma PlacedIff(pins: Pool<Pin>, p: Off)
    requires PoolOk(pins) && p in pins.list && Sorted(PinNames(pins.list, pins.items))
    ensures Placed(pins, p) <==> LastOfItsName(pins, p)
  {
    PlacedMeans(pins, p);
    PlaceOfRemoved(PinNames(pins.list, pins.items), IndexOf(pins.list, p));
  }

  lemma SameRestSameList(pins: Pool<Pin>, pins': Pool<Pin>, p: Off)
    requires PoolOk(pins) && PoolOk(pins') && SameButName(pins, pins', p) && pins'.items == pins.items
    requires Placed(pins', p)
    ensures pins' == pins <==> Placed(pins, p)
  {
  }

  lemma RemovalRestores(st: State, st': State, p: Off)
    requires PoolOk(st.pins) && Sorted(PinNames(st.pins.list, st.pins.items))
    requires Aliased(st, st', p, None) && st.pins.items[p].oldname == 0
    ensures st'.pins.items == st.pins.items && (st'.pins == st.pins <==> LastOfItsName(st.pins, p))
  {
    assert st'.pins.items[p] == st.pins.items[p];
    SameRestSameList(st.pins, st'.pins, p);
    PlacedIff(st.pins, p);
  }

  /**
   A pin that bore its own name, is given any number of aliases and then has its alias
   removed, is as it was, and so is every other pin.  Its position in the list is as it was if
   and only if no pin with the same name stood behind it.
   */
  lemma ChainRestores(states: seq<State>, calls: seq<AliasCall>, p: Off)
    requires AliasChain(states, calls, p) && OldInv(states[0])
    requires calls != [] && calls[|calls| - 1].alias.None?
    requires p in states[0].pins.items && states[0].pins.items[p].oldname == 0
    ensures var st, st' := states[0], states[|calls|];
            && PoolOk(st.pins) && p in st.pins.list
            && st'.pins.items == st.pins.items && (st'.pins == st.pins <==> LastOfItsName(st.pins, p))
  {
    assert AliasStep(states[0], calls[0], p, states[0 + 1]);
    ChainAliases(states, calls, p, |calls|);
    RemovalRestores(states[0], states[|calls|], p);
  }
}
