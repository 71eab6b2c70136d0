/**
 The pin, signal and component database of the HAL (src/hal/hal_lib.c) as the library keeps
 it: list heads, free-list heads and `next_ptr` fields, changed by walking the lists.  Every
 operation is proved to do to the lists what the function of the same name in `Hal` does.
 */
module HalDb {
  import opened Lists
  import opened Names
  import opened Shmem
  import opened Hal
  import opened HalInv
  import opened HalOps
  import opened LinkedList

  // --------------------------------------------------------------------- walks

  lemma AtEnd<T>(p: Pool<T>, i: nat)
    requires PoolOk(p) && i <= |p.list|
    ensures At(p.list, i) == 0 <==> i == |p.list|
    ensures At(p.list, i) != 0 ==> At(p.list, i) in p.list && At(p.list, i) in p.items
  {
    assert i < |p.list| ==> p.list[i] in p.list;
  }

  lemma FindPinFrom(p: Pool<Pin>, olds: map<Off, OldName>, name: string, i: nat)
    requires PoolOk(p) && i < |p.list|
    ensures p.list[i] in p.items
    ensures FindPin(p.list[i..], p.items, olds, name) ==
            if AnswersTo(p.items[p.list[i]], olds, name) then p.list[i] else FindPin(p.list[i + 1..], p.items, olds, name)
  {
    assert p.list[i] in p.list && p.list[i..][1..] == p.list[i + 1..];
  }

  /** The comparison with the name and, if there is one, the saved name. */
  method PinAnswers(pin: Pin, olds: map<Off, OldName>, name: string) returns (answers: bool)
    requires pin.oldname != 0 ==> pin.oldname in olds
    ensures answers <==> AnswersTo(pin, olds, name)
  {
    if pin.name == name {
      return true;
    }
    if pin.oldname != 0 {
      if olds[pin.oldname].name == name {
        return true;
      }
    }
    return false;
  }

  /** `halpr_find_pin_by_name`, also the first walk of `hal_pin_alias`, which keeps the element before. */
  method FindPinByName(l: Linked<Pin>, olds: map<Off, OldName>, name: string, ghost p: Pool<Pin>)
    returns (prev: Off, found: Off)
    requires Represents(l, p) && PoolOk(p)
    requires forall x :: x in p.items && p.items[x].oldname != 0 ==> p.items[x].oldname in olds
    ensures found == FindPin(p.list, p.items, olds, name)
    ensures found != 0 ==> prev == Before(p.list, IndexOf(p.list, found))
  {
    prev, found := 0, l.head;
    ghost var i := 0;
    AtEnd(p, 0);
    while found != 0
      invariant 0 <= i <= |p.list| && found == At(p.list, i) && prev == Before(p.list, i)
      invariant found == 0 <==> i == |p.list|
      invariant FindPin(p.list, p.items, olds, name) == FindPin(p.list[i..], p.items, olds, name)
      decreases |p.list| - i
    {
      FindPinFrom(p, olds, name, i);
      var pin := l.items[found];
      var answers := PinAnswers(pin, olds, name);
      if answers {
        break;
      }
      assert l.next[p.list[i]] == At(p.list, i + 1);
      AtEnd(p, i + 1);
      prev, found, i := found, l.next[found], i + 1;
    }
  }

  lemma FindSigFrom(p: Pool<Sig>, name: string, i: nat)
    requires PoolOk(p) && i < |p.list|
    ensures p.list[i] in p.items
    ensures FindSig(p.list[i..], p.items, name) ==
            if p.items[p.list[i]].name == name then p.list[i] else FindSig(p.list[i + 1..], p.items, name)
  {
    assert p.list[i] in p.list && p.list[i..][1..] == p.list[i + 1..];
  }

  lemma FindCompFrom(p: Pool<Comp>, id: int, i: nat)
    requires PoolOk(p) && i < |p.list|
    ensures p.list[i] in p.items
    ensures FindComp(p.list[i..], p.items, id) ==
            if p.items[p.list[i]].id == id then p.list[i] else FindComp(p.list[i + 1..], p.items, id)
  {
    assert p.list[i] in p.list && p.list[i..][1..] == p.list[i + 1..];
  }

  /** `halpr_find_sig_by_name`, also the walk of `hal_signal_delete`, which keeps the element before. */
  method FindSigByName(l: Linked<Sig>, name: string, ghost p: Pool<Sig>) returns (prev: Off, found: Off)
    requires Represents(l, p) && PoolOk(p)
    ensures found == FindSig(p.list, p.items, name)
    ensures found != 0 ==> prev == Before(p.list, IndexOf(p.list, found))
  {
    prev, found := 0, l.head;
    ghost var i := 0;
    AtEnd(p, 0);
    while found != 0
      invariant 0 <= i <= |p.list| && found == At(p.list, i) && prev == Before(p.list, i)
      invariant found == 0 <==> i == |p.list|
      invariant FindSig(p.list, p.items, name) == FindSig(p.list[i..], p.items, name)
      decreases |p.list| - i
    {
      FindSigFrom(p, name, i);
      if l.items[found].name == name {
        break;
      }
      assert l.next[p.list[i]] == At(p.list, i + 1);
      AtEnd(p, i + 1);
      prev, found, i := found, l.next[found], i + 1;
    }
  }

  /** `halpr_find_comp_by_id`, also the walk of `hal_exit`. */
  method FindCompById(l: Linked<Comp>, id: int, ghost p: Pool<Comp>) returns (prev: Off, found: Off)
    requires Represents(l, p) && PoolOk(p)
    ensures found == FindComp(p.list, p.items, id)
    ensures found != 0 ==> prev == Before(p.list, IndexOf(p.list, found))
  {
    prev, found := 0, l.head;
    ghost var i := 0;
    AtEnd(p, 0);
    while found != 0
      invariant 0 <= i <= |p.list| && found == At(p.list, i) && prev == Before(p.list, i)
      invariant found == 0 <==> i == |p.list|
      invariant FindComp(p.list, p.items, id) == FindComp(p.list[i..], p.items, id)
      decreases |p.list| - i
    {
      FindCompFrom(p, id, i);
      if l.items[found].id == id {
        break;
      }
      assert l.next[p.list[i]] == At(p.list, i + 1);
      AtEnd(p, i + 1);
      prev, found, i := found, l.next[found], i + 1;
    }
  }

  /** `halpr_find_comp_by_name`, as far as `hal_init` needs it. */
  method FindCompByName(l: Linked<Comp>, name: string, ghost p: Pool<Comp>) returns (taken: bool)
    requires Represents(l, p) && PoolOk(p)
    ensures taken <==> CompNameTaken(p.list, p.items, name)
  {
    var next := l.head;
    ghost var i := 0;
    AtEnd(p, 0);
    while next != 0
      invariant 0 <= i <= |p.list| && next == At(p.list, i)
      invariant next == 0 <==> i == |p.list|
      invariant forall k :: 0 <= k < i ==> p.items[p.list[k]].name != name
      decreases |p.list| - i
    {
      AtEnd(p, i);
      AtEnd(p, i + 1);
      assert l.next[p.list[i]] == At(p.list, i + 1);
      if l.items[next].name == name {
        return true;
      }
      next, i := l.next[next], i + 1;
    }
    return false;
  }

  /** The insertion walk of `hal_signal_new` and `hal_pin_alias`: up to the first greater name. */
  method FindPlace<T>(l: Linked<T>, nameOf: T -> string, name: string, ghost p: Pool<T>, ghost names: seq<string>)
    returns (prev: Off)
    requires Represents(l, p) && PoolOk(p)
    requires |names| == |p.list| && forall i :: 0 <= i < |names| ==> names[i] == nameOf(p.items[p.list[i]])
    ensures prev == Before(p.list, Place(names, name))
  {
    prev := 0;
    var next := l.head;
    ghost var i := 0;
    AtEnd(p, 0);
    while next != 0
      invariant 0 <= i <= |p.list| && next == At(p.list, i) && prev == Before(p.list, i)
      invariant next == 0 <==> i == |p.list|
      invariant forall k :: 0 <= k < i ==> AtMost(names[k], name)
      decreases |p.list| - i
    {
      AtEnd(p, i);
      AtEnd(p, i + 1);
      assert l.next[p.list[i]] == At(p.list, i + 1);
      assert nameOf(l.items[next]) == names[i];
      if Less(name, nameOf(l.items[next])) {
        break;
      }
      prev, next, i := next, l.next[next], i + 1;
    }
    PlaceIs(names, name, i);
  }

  /** The insertion walk of `hal_pin_new`, which also stops at an equal name. */
  method FindNewPlace(l: Linked<Pin>, name: string, ghost p: Pool<Pin>) returns (prev: Off, taken: bool)
    requires Represents(l, p) && PoolOk(p) && Sorted(PinNames(p.list, p.items))
    ensures taken <==> name in PinNames(p.list, p.items)
    ensures !taken ==> prev == Before(p.list, Place(PinNames(p.list, p.items), name))
  {
    ghost var names := PinNames(p.list, p.items);
    prev, taken := 0, false;
    var next := l.head;
    ghost var i := 0;
    AtEnd(p, 0);
    while next != 0
      invariant 0 <= i <= |p.list| && next == At(p.list, i) && prev == Before(p.list, i)
      invariant next == 0 <==> i == |p.list|
      invariant forall k :: 0 <= k < i ==> AtMost(names[k], name) && names[k] != name
      decreases |p.list| - i
    {
      AtEnd(p, i);
      AtEnd(p, i + 1);
      assert l.next[p.list[i]] == At(p.list, i + 1);
      assert l.items[next].name == names[i];
      if Less(name, l.items[next].name) {
        break;
      }
      if l.items[next].name == name {
        return prev, true;
      }
      prev, next, i := next, l.next[next], i + 1;
    }
    PlaceIs(names, name, i);
    if name in names {
      var k :| 0 <= k < |names| && names[k] == name;
      OccursBeforePlace(names, name, k);
    }
  }

  /** `halpr_find_pin_by_sig`: the first pin on the signal, from a position in the list on. */
  method FindPinBySig(l: Linked<Pin>, s: Off, start: Off, ghost from: nat, ghost p: Pool<Pin>)
    returns (found: Off, ghost at: nat)
    requires Represents(l, p) && PoolOk(p) && from <= |p.list| && start == At(p.list, from)
    ensures from <= at <= |p.list| && found == At(p.list, at)
    ensures found != 0 ==> found in p.list && p.items[found].signal == s
    ensures forall k :: from <= k < at ==> p.items[p.list[k]].signal != s
    ensures found == 0 ==> at == |p.list|
  {
    found, at := start, from;
    AtEnd(p, from);
    while found != 0
      invariant from <= at <= |p.list| && found == At(p.list, at)
      invariant found == 0 <==> at == |p.list|
      invariant forall k :: from <= k < at ==> p.items[p.list[k]].signal != s
      decreases |p.list| - at
    {
      AtEnd(p, at);
      AtEnd(p, at + 1);
      assert l.next[p.list[at]] == At(p.list, at + 1);
      if l.items[found].signal == s {
        return;
      }
      found, at := l.next[found], at + 1;
    }
  }

  // -------------------------------------------------------------- structures

  /** `alloc_comp_struct`, `alloc_pin_struct`, `alloc_sig_struct`: off the free list, or from fresh memory. */
  method AllocStruct<T>(l: Linked<T>, m: Arena, size: nat, item: T, ghost p: Pool<T>)
    returns (l': Linked<T>, m': Arena, x: Off)
    requires Represents(l, p) && PoolOk(p) && 0 < m.bot <= m.top && size > 0
    requires forall y :: y in p.items ==> m.top <= y
    ensures Represents(l', Alloc(p, m, size, item).0) && m' == Alloc(p, m, size, item).1 && x == Alloc(p, m, size, item).2
  {
    AllocFacts(p, m, size, item);
    if l.free != 0 {
      PopFreeRep(l, p, item);
      return PopFree(l, item), m, l.free;
    }
    assert p.free == [] by {
      assert forall y :: y in p.free ==> y != 0;
    }
    var (left, got) := AllocDown(m, size);
    match got
    case None => return l, left, 0;
    case Some(y) =>
      AddFreshRep(l, p, y, item);
      return AddFresh(l, y, item), left, y;
  }

  /** The three updates of the counts in `hal_link` and, with -1, in `unlink_pin`. */
  method CountLink(sig: Sig, dir: Dir, n: int) returns (sig': Sig)
    ensures sig' == Recount(sig, dir, n)
  {
    sig' := sig;
    if dir == In || dir == Io {
      sig' := sig'.(readers := sig'.readers + n);
    }
    if dir == Out {
      sig' := sig'.(writers := sig'.writers + n);
    }
    if dir == Io {
      sig' := sig'.(bidirs := sig'.bidirs + n);
    }
  }

  lemma UnlinkPinPool(st: State, p: Off)
    requires CanUnlink(st, p) && PoolOk(st.pins)
    ensures var pins' := Hal.UnlinkPin(st, p).pins;
            PoolOk(pins') && pins'.list == st.pins.list && pins'.free == st.pins.free && p in pins'.items
  {
  }

  /** Filling in a structure that is on no list changes no listed name. */
  lemma SetNewPin(st0: State, st1: State, p: Off, pin: Pin)
    requires PoolOk(st0.pins) && PoolOk(st1.pins) && st1.pins.list == st0.pins.list && p !in st1.pins.list
    requires p in st1.pins.items && st1.pins.items == st0.pins.items[p := st1.pins.items[p]]
    ensures var pins := SetPin(st1, p, pin).pins;
            PoolOk(pins) && PinNames(pins.list, pins.items) == PinNames(st0.pins.list, st0.pins.items)
  {
    PinNamesFrame(st0.pins.list, st0.pins.items, p, pin);
    assert SetPin(st1, p, pin).pins.items == st0.pins.items[p := pin];
  }

  /** Renaming a pin changes that pin only. */
  lemma RenameItems(st: State, p: Off, alias: Option<string>)
    requires p in st.pins.items && st.oldFree != 0 && OldRefs(st)
    ensures var st' := Rename(st, p, alias);
            p in st'.pins.items && st'.pins == st.pins.(items := st.pins.items[p := st'.pins.items[p]])
  {
  }

  /** Realiasing is detaching, renaming and inserting again. */
  lemma RealiasIs(st: State, p: Off, alias: Option<string>, st1: State, names: seq<string>)
    requires PoolOk(st.pins) && p in st.pins.list && OldRefs(st) && st.oldFree != 0
    requires st1 == Rename(st.(pins := Detach(st.pins, p)), p, alias) && p in st1.pins.items
    requires st1.pins.list == Detach(st.pins, p).list
    requires (forall x :: x in st1.pins.list ==> x in st.pins.items) && names == PinNames(st1.pins.list, st.pins.items)
    ensures var i := Place(names, st1.pins.items[p].name);
            i <= |st1.pins.list|
            && Realias(st, p, alias) == st1.(pins := st1.pins.(list := Insert(st1.pins.list, i, p)))
  {
  }

  /** Obtaining an old-name structure and putting it back leaves references intact. */
  lemma ReserveFacts(st: State)
    requires Inv(st)
    ensures var (st1, o) := AllocOldName(st);
            var st2 := FreeOldName(st1, o);
            o != 0 ==> st2.pins == st.pins && OldRefs(st2) && st2.oldFree != 0
  {
  }

  /** Shared memory as the library sees it; the ghost state is what the lists hold. */
  class Database {
    var pins: Linked<Pin>
    var sigs: Linked<Sig>
    var comps: Linked<Comp>
    var cells: map<Off, Value>
    var oldFree: Off
    var olds: map<Off, OldName>
    var arena: Arena
    var lockLoad: bool
    var lockConfig: bool
    ghost var st: State

    /** The pointers and fields hold the ghost state. */
    ghost predicate Holds()
      reads this
    {
      && Represents(pins, st.pins) && Represents(sigs, st.sigs) && Represents(comps, st.comps)
      && cells == st.cells && oldFree == st.oldFree && olds == st.olds && arena == st.arena
      && lockLoad == st.lockLoad && lockConfig == st.lockConfig
    }

    ghost predicate Valid()
      reads this
    {
      Holds() && Inv(st)
    }

    /** `init_hal_data`. */
    constructor (header: nat)
      requires 0 < header <= HAL_SIZE
      ensures Valid() && st == Init(header)
    {
      pins, sigs, comps := Linked(0, 0, map[], map[]), Linked(0, 0, map[], map[]), Linked(0, 0, map[], map[]);
      cells, oldFree, olds := map[], 0, map[];
      arena, lockLoad, lockConfig := Arena(header, HAL_SIZE), false, false;
      st := Init(header);
    }

    /** `unlink_pin`. */
    method UnlinkPin(p: Off)
      requires Holds() && CanUnlink(st, p)
      modifies this`pins, this`sigs, this`st
      ensures Holds() && st == Hal.UnlinkPin(old(st), p)
    {
      var pin := pins.items[p];
      if pin.signal != 0 {
        var sig := sigs.items[pin.signal];
        var dummy := if pin.typ == PortHandle then 0 else cells[sig.data];
        var less := CountLink(sig, pin.dir, -1);
        sigs := sigs.(items := sigs.items[pin.signal := less]);
        pins := pins.(items := pins.items[p := pin.(target := OwnDummy, dummy := dummy, signal := 0)]);
      }
      st := Hal.UnlinkPin(st, p);
    }

    /** `free_oldname_struct`. */
    method FreeOldNameStruct(o: Off)
      requires Holds()
      modifies this`olds, this`oldFree, this`st
      ensures Holds() && st == FreeOldName(old(st), o)
    {
      olds := olds[o := OldName("", oldFree)];
      oldFree := o;
      st := FreeOldName(st, o);
    }

    /** `free_pin_struct`. */
    method FreePinStruct(p: Off)
      requires Holds() && PoolOk(st.pins) && CanUnlink(st, p) && p !in st.pins.list && p !in st.pins.free
      modifies this`pins, this`sigs, this`olds, this`oldFree, this`st
      ensures Holds() && st == FreePin(old(st), p)
    {
      UnlinkPinPool(st, p);
      UnlinkPin(p);
      var pin := pins.items[p];
      if pin.oldname != 0 {
        FreeOldNameStruct(pin.oldname);
      }
      ShelvePin(p, Cleared(pin));
    }

    /** Puts a pin structure on the free list. */
    method ShelvePin(p: Off, pin: Pin)
      requires Holds() && PoolOk(st.pins) && p !in st.pins.list && p !in st.pins.free
      modifies this`pins, this`st
      ensures Holds()
      ensures st == old(st).(pins := Pool(old(st).pins.list, [p] + old(st).pins.free, old(st).pins.items[p := pin]))
    {
      PushFreeRep(pins, st.pins, p, pin);
      pins := PushFree(pins, p, pin);
      st := st.(pins := Pool(st.pins.list, [p] + st.pins.free, st.pins.items[p := pin]));
    }

    /** Links a pin into the pin list behind the element that a walk has found. */
    method LinkPinAfter(prev: Off, p: Off, ghost i: nat)
      requires Holds() && PoolOk(st.pins) && i <= |st.pins.list| && prev == Before(st.pins.list, i)
      requires p !in st.pins.list && p !in st.pins.free
      modifies this`pins, this`st
      ensures Holds() && st == old(st).(pins := old(st).pins.(list := Insert(old(st).pins.list, i, p)))
    {
      LinkAfterRep(pins, st.pins, i, p);
      pins := LinkAfter(pins, prev, p);
      st := st.(pins := st.pins.(list := Insert(st.pins.list, i, p)));
    }

    /** Takes a pin off the pin list. */
    method UnlinkPinAfter(prev: Off, p: Off, ghost i: nat)
      requires Holds() && PoolOk(st.pins) && i < |st.pins.list| && prev == Before(st.pins.list, i) && p == st.pins.list[i]
      modifies this`pins, this`st
      ensures Holds() && st == old(st).(pins := old(st).pins.(list := Remove(old(st).pins.list, i)))
    {
      UnlinkAfterRep(pins, st.pins, i);
      pins := UnlinkAfter(pins, prev, p);
      st := st.(pins := st.pins.(list := Remove(st.pins.list, i)));
    }

    /** The end of `hal_pin_new`: the walk, and the insertion or the release. */
    method PlacePin(p: Off, pin: Pin, ghost st0: State) returns (r: Result)
      requires Holds() && PoolOk(st0.pins) && PoolOk(st.pins) && st.pins.list == st0.pins.list
      requires p in st.pins.items && st.pins.items == st0.pins.items[p := st.pins.items[p]]
      requires p !in st.pins.list && p !in st.pins.free && p != 0 && pin.signal == 0
      requires Sorted(PinNames(st0.pins.list, st0.pins.items))
      modifies this`pins, this`sigs, this`olds, this`oldFree, this`st
      ensures Holds() && (st, r) == FinishPin(st0, old(st), p, pin)
    {
      SetNewPin(st0, st, p, pin);
      pins := pins.(items := pins.items[p := pin]);
      st := SetPin(st, p, pin);
      r := PlaceNewPin(p, PinNames(st0.pins.list, st0.pins.items));
    }

    /** The walk of `hal_pin_new`, and the insertion or the release. */
    method PlaceNewPin(p: Off, ghost names: seq<string>) returns (r: Result)
      requires Holds() && PoolOk(st.pins) && p in st.pins.items && p !in st.pins.list && p !in st.pins.free
      requires st.pins.items[p].signal == 0 && Sorted(names) && names == PinNames(st.pins.list, st.pins.items)
      modifies this`pins, this`sigs, this`olds, this`oldFree, this`st
      ensures Holds()
      ensures var pool := old(st).pins;
              var name := pool.items[p].name;
              if name in names then r == Err(EINVAL) && st == FreePin(old(st), p)
              else r == Ok && st == old(st).(pins := pool.(list := Insert(pool.list, Place(names, name), p)))
    {
      var prev, taken := FindNewPlace(pins, pins.items[p].name, st.pins);
      if taken {
        FreePinStruct(p);
        return Err(EINVAL);
      }
      LinkPinAfter(prev, p, Place(names, st.pins.items[p].name));
      return Ok;
    }

    /** `hal_pin_new`. */
    method PinNew(name: string, typ: Type, dir: Dir, compId: int, ptrOk: bool) returns (r: Result)
      requires Valid()
      modifies this
      ensures Valid() && (st, r) == Hal.PinNew(old(st), name, typ, dir, compId, ptrOk)
    {
      if (typ == PortHandle && dir == Io) || |name| > HAL_NAME_LEN {
        return Err(EINVAL);
      }
      if lockLoad {
        return Err(EPERM);
      }
      var _, c := FindCompById(comps, compId, st.comps);
      if c == 0 || !ptrOk || comps.items[c].ready {
        return Err(EINVAL);
      }
      ghost var st0 := st;
      PinNewKeepsInv(st0, name, typ, dir, compId, ptrOk);
      AllocPinFacts(st);
      var p := AllocPinStruct();
      if p == 0 {
        return Err(ENOMEM);
      }
      r := PlacePin(p, pins.items[p].(name := name, owner := c, typ := typ, dir := dir), st0);
    }

    /** `alloc_pin_struct`. */
    method AllocPinStruct() returns (p: Off)
      requires Holds() && PoolOk(st.pins) && 0 < st.arena.bot <= st.arena.top
      requires forall x :: x in st.pins.items ==> st.arena.top <= x
      modifies this`pins, this`arena, this`st
      ensures Holds() && (st, p) == AllocPin(old(st))
    {
      assert st.pins.free != [] ==> st.pins.free[0] in st.pins.free;
      var kept := if pins.free != 0 then pins.items[pins.free].oldname else 0;
      pins, arena, p := AllocStruct(pins, arena, PIN_SIZE, CLEARED_PIN.(oldname := kept), st.pins);
      st := AllocPin(st).0;
    }
  
    // ------------------------------------------------------------------- links

    /** `hal_link`. */
    method Link(pinName: string, sigName: string) returns (r: Result)
      requires Valid()
      modifies this
      ensures Valid() && (st, r) == Hal.Link(old(st), pinName, sigName)
    {
      if lockConfig {
        return Err(EPERM);
      }
      var _, p := FindPinByName(pins, olds, pinName, st.pins);
      var _, s := FindSigByName(sigs, sigName, st.sigs);
      if p == 0 || s == 0 {
        return Err(EINVAL);
      }
      LinkKeepsInv(st, p, s);
      r := LinkFound(p, s);
    }

    /** `hal_link` once pin and signal have been found. */
    method LinkFound(p: Off, s: Off) returns (r: Result)
      requires Holds() && p in st.pins.items && s in st.sigs.items && s != 0
      modifies this`pins, this`sigs, this`cells, this`st
      ensures Holds() && (st, r) == LinkPin(old(st), p, s)
    {
      var pin, sig := pins.items[p], sigs.items[s];
      if pin.signal == s {
        return Ok;
      }
      if !MayLink(pin, sig) {
        return Err(EINVAL);
      }
      if DrivesDefault(pin, sig) {
        cells := cells[sig.data := pin.dummy];
      }
      var more := CountLink(sig, pin.dir, 1);
      sigs := sigs.(items := sigs.items[s := more]);
      pins := pins.(items := pins.items[p := pin.(target := Cell(sig.data), signal := s)]);
      st := LinkPin(st, p, s).0;
      return Ok;
    }

    /** `hal_unlink`. */
    method Unlink(pinName: string) returns (r: Result)
      requires Valid()
      modifies this
      ensures Valid() && (st, r) == Hal.Unlink(old(st), pinName)
    {
      if lockConfig {
        return Err(EPERM);
      }
      var _, p := FindPinByName(pins, olds, pinName, st.pins);
      if p == 0 {
        return Err(EINVAL);
      }
      UnlinkKeepsInv(st, p);
      UnlinkPin(p);
      return Ok;
    }

    // -------------------------------------------------------------------- exit

    /** The pin loop of `free_comp_struct`: every pin of the component leaves the list and is freed. */
    method DropOwned(c: Off, ghost ps: seq<Off>, ghost st': State)
      requires Holds() && LeftToDrop(st, 0, c, ps, st')
      modifies this`pins, this`sigs, this`olds, this`oldFree, this`st
      ensures Holds() && st == st'
    {
      var prev := 0;
      var next := NextOf(prev, 0);
      ghost var k, left := 0, ps;
      while next != 0
        invariant Holds() && DropPlace(st, prev, next, k) && LeftToDrop(st, k, c, left, st')
        decreases |st.pins.list| - k
      {
        prev, next, k, left := Examine(prev, next, k, c, left, st');
      }
      DropDone(st, k, c, left, st');
    }

    /** The loop body. */
    method Examine(prev: Off, p: Off, ghost k: nat, c: Off, ghost ps: seq<Off>, ghost st': State)
      returns (prev': Off, next: Off, ghost k': nat, ghost left: seq<Off>)
      requires Holds() && DropPlace(st, prev, p, k) && LeftToDrop(st, k, c, ps, st') && p != 0
      modifies this`pins, this`sigs, this`olds, this`oldFree, this`st
      ensures Holds() && DropPlace(st, prev', next, k') && LeftToDrop(st, k', c, left, st')
      ensures |st.pins.list| - k' < |old(st).pins.list| - k
    {
      if pins.items[p].owner == c {
        next, left := DropNext(prev, p, k, c, ps, st');
        prev', k' := prev, k;
      } else {
        DropSkip(st, k, c, ps, st');
        prev', k', left := p, k + 1, ps;
        next := NextOf(p, k + 1);
      }
    }

    /** The loop body for a pin that the component owns. */
    method DropNext(prev: Off, p: Off, ghost k: nat, c: Off, ghost ps: seq<Off>, ghost st': State)
      returns (next: Off, ghost left: seq<Off>)
      requires Holds() && LeftToDrop(st, k, c, ps, st') && k < |st.pins.list|
      requires p == st.pins.list[k] && prev == Before(st.pins.list, k) && st.pins.items[p].owner == c
      modifies this`pins, this`sigs, this`olds, this`oldFree, this`st
      ensures Holds() && DropPlace(st, prev, next, k) && LeftToDrop(st, k, c, left, st')
      ensures |st.pins.list| == |old(st).pins.list| - 1
    {
      DropStep(st, k, c, ps, st');
      left := ps[1..];
      DropPinAt(prev, p, k);
      next := NextOf(prev, k);
    }

    /** `*prev`. */
    method NextOf(prev: Off, ghost k: nat) returns (next: Off)
      requires Holds() && PoolOk(st.pins) && k <= |st.pins.list| && prev == Before(st.pins.list, k)
      ensures next == At(st.pins.list, k) && (next == 0 <==> k == |st.pins.list|)
    {
      AtEnd(st.pins, k);
      assert k != 0 ==> st.pins.list[k - 1] in st.pins.list && pins.next[st.pins.list[k - 1]] == At(st.pins.list, k);
      next := if prev == 0 then pins.head else pins.next[prev];
    }

    /** Takes a pin off the list and frees it. */
    method DropPinAt(prev: Off, p: Off, ghost k: nat)
      requires Holds() && PoolOk(st.pins) && k < |st.pins.list| && prev == Before(st.pins.list, k) && p == st.pins.list[k]
      requires CanUnlink(st, p)
      modifies this`pins, this`sigs, this`olds, this`oldFree, this`st
      ensures Holds() && p in old(st).pins.list && st == DropPin(old(st), p)
    {
      DetachAt(st.pins, k);
      UnlinkPinAfter(prev, p, k);
      FreePinStruct(p);
    }

    /** Takes a component off the component list and frees it. */
    method RetireComp(prev: Off, c: Off)
      requires Holds() && PoolOk(st.comps) && c in st.comps.list && prev == Before(st.comps.list, IndexOf(st.comps.list, c))
      modifies this`comps, this`st
      ensures Holds()
      ensures st == WithoutComp(old(st), old(st).comps, c)
    {
      DetachAt(st.comps, IndexOf(st.comps.list, c));
      UnlinkAfterRep(comps, st.comps, IndexOf(st.comps.list, c));
      comps := UnlinkAfter(comps, prev, c);
      ghost var detached := Detach(st.comps, c);
      PushFreeRep(comps, detached, c, Comp(0, "", false));
      comps := PushFree(comps, c, Comp(0, "", false));
      st := WithoutComp(st, st.comps, c);
    }

    /**
     `hal_exit`.  The library takes the component off its list before it drops the pins and
     frees it after that; the pin loop does not look at the component list.
     */
    method Exit(id: int) returns (r: Result)
      requires Valid()
      modifies this
      ensures Valid() && (st, r) == CompExit(old(st), id)
    {
      ghost var st0 := st;
      var prev, c := FindCompById(comps, id, st.comps);
      if c == 0 {
        return Err(EINVAL);
      }
      ghost var ps, st' := ExitTarget(st, id, c);
      ExitFound(prev, c, ps, st');
      return Ok;
    }

    /** `hal_exit` once the component has been found. */
    method ExitFound(prev: Off, c: Off, ghost ps: seq<Off>, ghost st': State)
      requires Holds() && LeftToDrop(st, 0, c, ps, st') && st'.comps == st.comps && PoolOk(st.comps)
      requires c in st.comps.list && prev == Before(st.comps.list, IndexOf(st.comps.list, c))
      modifies this
      ensures Holds() && st == WithoutComp(st', st'.comps, c)
    {
      DropOwned(c, ps, st');
      RetireComp(prev, c);
    }

    // ----------------------------------------------------------------- aliases

    /** `halpr_alloc_oldname_struct`. */
    method AllocOldNameStruct() returns (o: Off)
      requires Holds() && (st.oldFree != 0 ==> st.oldFree in st.olds)
      modifies this`olds, this`oldFree, this`arena, this`st
      ensures Holds() && (st, o) == AllocOldName(old(st))
    {
      ghost var st0 := st;
      if oldFree != 0 {
        o := oldFree;
        oldFree := olds[o].next;
        olds := olds[o := OldName("", 0)];
      } else {
        var (m, got) := AllocDown(arena, OLDNAME_SIZE);
        if got.None? {
          return 0;
        }
        arena, o := m, got.value;
        olds := olds[o := OldName("", 0)];
      }
      st := AllocOldName(st0).0;
    }

    /** The renaming part of `hal_pin_alias`. */
    method RenamePin(p: Off, alias: Option<string>)
      requires Holds() && p in st.pins.items && st.oldFree != 0 && OldRefs(st)
      modifies this`pins, this`olds, this`oldFree, this`arena, this`st
      ensures Holds() && st == Rename(old(st), p, alias)
    {
      if alias.Some? {
        SavePinName(p, alias.value);
      } else {
        RestorePinName(p);
      }
    }

    /** An alias is added: the name is saved, unless one is saved already. */
    method SavePinName(p: Off, name: string)
      requires Holds() && p in st.pins.items && st.oldFree != 0 && OldRefs(st)
      modifies this`pins, this`olds, this`oldFree, this`arena, this`st
      ensures Holds() && st == Rename(old(st), p, Some(name))
    {
      ghost var st0 := st;
      var pin := pins.items[p];
      if pin.oldname == 0 {
        var o := AllocOldNameStruct();
        olds := olds[o := olds[o].(name := pin.name)];
        pin := pin.(oldname := o);
      }
      pins := pins.(items := pins.items[p := pin.(name := name)]);
      st := Rename(st0, p, Some(name));
    }

    /** An alias is removed: the saved name, if there is one, comes back. */
    method RestorePinName(p: Off)
      requires Holds() && p in st.pins.items && st.oldFree != 0 && OldRefs(st)
      modifies this`pins, this`olds, this`oldFree, this`st
      ensures Holds() && st == Rename(old(st), p, None)
    {
      ghost var st0 := st;
      var pin := pins.items[p];
      if pin.oldname != 0 {
        var o := pin.oldname;
        pins := pins.(items := pins.items[p := pin.(name := olds[o].name, oldname := 0)]);
        olds := olds[o := OldName("", oldFree)];
        oldFree := o;
      }
      st := Rename(st0, p, None);
    }

    /** `hal_pin_alias` once the pin has been found: off the list, renamed, and back in its place. */
    method RealiasPin(prev: Off, p: Off, alias: Option<string>)
      requires Holds() && PoolOk(st.pins) && p in st.pins.list && OldRefs(st) && st.oldFree != 0
      requires prev == Before(st.pins.list, IndexOf(st.pins.list, p))
      modifies this`pins, this`olds, this`oldFree, this`arena, this`st
      ensures Holds() && st == Realias(old(st), p, alias)
    {
      ghost var st0 := st;
      ghost var names := DetachRename(prev, p, alias);
      RealiasIs(st0, p, alias, st, names);
      RelistPin(p, names);
    }

    /** Takes the pin off the list and renames it; the names left are those of the other pins. */
    method DetachRename(prev: Off, p: Off, alias: Option<string>) returns (ghost names: seq<string>)
      requires Holds() && PoolOk(st.pins) && p in st.pins.list && OldRefs(st) && st.oldFree != 0
      requires prev == Before(st.pins.list, IndexOf(st.pins.list, p))
      modifies this`pins, this`olds, this`oldFree, this`arena, this`st
      ensures Holds() && st == Rename(old(st).(pins := Detach(old(st).pins, p)), p, alias)
      ensures PoolOk(st.pins) && p in st.pins.items && p !in st.pins.list && p !in st.pins.free
      ensures st.pins.list == Detach(old(st).pins, p).list && (forall x :: x in st.pins.list ==> x in old(st).pins.items)
      ensures names == PinNames(st.pins.list, old(st).pins.items) == PinNames(st.pins.list, st.pins.items)
    {
      ghost var items := st.pins.items;
      DetachAt(st.pins, IndexOf(st.pins.list, p));
      UnlinkPinAfter(prev, p, IndexOf(st.pins.list, p));
      names := PinNames(st.pins.list, st.pins.items);
      RenameItems(st, p, alias);
      RenamePin(p, alias);
      PinNamesFrame(st.pins.list, items, p, st.pins.items[p]);
    }

    /** The second walk of `hal_pin_alias`, and the insertion. */
    method RelistPin(p: Off, ghost names: seq<string>)
      requires Holds() && PoolOk(st.pins) && p in st.pins.items && p !in st.pins.list && p !in st.pins.free
      requires names == PinNames(st.pins.list, st.pins.items)
      modifies this`pins, this`st
      ensures Holds()
      ensures var pool := old(st).pins;
              var i := Place(names, pool.items[p].name);
              i <= |pool.list| && st == old(st).(pins := pool.(list := Insert(pool.list, i, p)))
    {
      var prev := FindPlace(pins, (pin: Pin) => pin.name, pins.items[p].name, st.pins, names);
      LinkPinAfter(prev, p, Place(names, st.pins.items[p].name));
    }

    /** `hal_pin_alias`. */
    method PinAlias(pinName: string, alias: Option<string>) returns (r: Result)
      requires Valid()
      modifies this
      ensures Valid() && (st, r) == Hal.PinAlias(old(st), pinName, alias)
    {
      if lockConfig {
        return Err(EPERM);
      }
      if alias.Some? && |alias.value| > HAL_NAME_LEN {
        return Err(EINVAL);
      }
      if alias.Some? {
        var _, other := FindPinByName(pins, olds, alias.value, st.pins);
        if other != 0 {
          return Err(EINVAL);
        }
      }
      PinAliasKeepsInv(st, pinName, alias);
      r := AliasFree(pinName, alias);
    }

    /** The rest of `hal_pin_alias`, once the alias is known to be free. */
    method AliasFree(pinName: string, alias: Option<string>) returns (r: Result)
      requires Valid()
      modifies this
      ensures Holds()
      ensures var (st1, o) := AllocOldName(old(st));
              if o == 0 then (st, r) == (st1, Err(EINVAL))
              else
                var st2 := FreeOldName(st1, o);
                && PoolOk(st2.pins) && OldRefs(st2)
                && var p := FindPin(st2.pins.list, st2.pins.items, st2.olds, pinName);
                   if p == 0 then (st, r) == (st2, Err(EINVAL)) else (st, r) == (Realias(st2, p, alias), Ok)
    {
      ReserveFacts(st);
      var o := AllocOldNameStruct();
      if o == 0 {
        return Err(EINVAL);
      }
      FreeOldNameStruct(o);
      var prev, p := FindPinByName(pins, olds, pinName, st.pins);
      if p == 0 {
        return Err(EINVAL);
      }
      RealiasPin(prev, p, alias);
      return Ok;
    }

    // ----------------------------------------------------------------- signals

    /** `hal_signal_new`. */
    method SignalNew(name: string, typ: Type) returns (r: Result)
      requires Valid()
      modifies this
      ensures Valid() && (st, r) == Hal.SignalNew(old(st), name, typ)
    {
      if |name| > HAL_NAME_LEN {
        return Err(EINVAL);
      }
      if lockConfig {
        return Err(EPERM);
      }
      var _, s := FindSigByName(sigs, name, st.sigs);
      if s != 0 {
        return Err(EINVAL);
      }
      SignalNewKeepsInv(st, name, typ);
      SignalMemory(st);
      AllocUpExact(st.arena, CELL_SIZE);
      r := AddSig(name, typ);
    }

    /** The rest of `hal_signal_new`: memory for the value and the structure, and the insertion. */
    method AddSig(name: string, typ: Type) returns (r: Result)
      requires Holds() && PoolOk(st.sigs) && 0 < st.arena.bot <= st.arena.top
      requires forall x :: x in st.sigs.items ==> st.arena.top <= x
      modifies this`sigs, this`arena, this`cells, this`st
      ensures Holds()
      ensures var (m1, cell) := AllocUp(old(st).arena, CELL_SIZE);
              var (pool, m2, s) := Alloc(old(st).sigs, m1, SIG_SIZE, Sig("", 0, Bit, 0, 0, 0));
              && pool.list == old(st).sigs.list
              && if cell.None? || s == 0 then r == Err(ENOMEM) && st == old(st).(sigs := pool, arena := m2)
                 else r == Ok && st == FinishSig(old(st), pool, m2, s, Sig(name, cell.value, typ, 0, 0, 0))
    {
      ghost var st0 := st;
      AllocUpExact(arena, CELL_SIZE);
      var (m1, cell) := AllocUp(arena, CELL_SIZE);
      AllocFacts(st.sigs, m1, SIG_SIZE, Sig("", 0, Bit, 0, 0, 0));
      ghost var pool := Alloc(st.sigs, m1, SIG_SIZE, Sig("", 0, Bit, 0, 0, 0)).0;
      var s;
      sigs, arena, s := AllocStruct(sigs, m1, SIG_SIZE, Sig("", 0, Bit, 0, 0, 0), st.sigs);
      st := st.(sigs := pool, arena := arena);
      if cell.None? || s == 0 {
        return Err(ENOMEM);
      }
      PlaceSig(s, Sig(name, cell.value, typ, 0, 0, 0), st0);
      return Ok;
    }

    /** The end of `hal_signal_new`: the value is cleared and the structure joins the list. */
    method PlaceSig(s: Off, sig: Sig, ghost st0: State)
      requires Holds() && PoolOk(st0.sigs) && PoolOk(st.sigs) && st.sigs.list == st0.sigs.list
      requires s in st.sigs.items && st.sigs.items == st0.sigs.items[s := st.sigs.items[s]]
      requires s !in st.sigs.list && s !in st.sigs.free && s != 0
      requires st == st0.(sigs := st.sigs, arena := st.arena)
      modifies this`sigs, this`cells, this`st
      ensures Holds() && st == FinishSig(st0, old(st).sigs, old(st).arena, s, sig)
    {
      ghost var names := SigNames(st0.sigs.list, st0.sigs.items);
      cells := cells[sig.data := 0];
      sigs := sigs.(items := sigs.items[s := sig]);
      st := st.(cells := cells, sigs := st.sigs.(items := sigs.items));
      ListSig(s, names);
    }

    /** The insertion walk of `hal_signal_new`, and the insertion. */
    method ListSig(s: Off, ghost names: seq<string>)
      requires Holds() && PoolOk(st.sigs) && s in st.sigs.items && s !in st.sigs.list && s !in st.sigs.free
      requires names == SigNames(st.sigs.list, st.sigs.items)
      modifies this`sigs, this`st
      ensures Holds()
      ensures var pool := old(st).sigs;
              var i := Place(names, pool.items[s].name);
              i <= |pool.list| && st == old(st).(sigs := pool.(list := Insert(pool.list, i, s)))
    {
      var prev := FindPlace(sigs, (t: Sig) => t.name, sigs.items[s].name, st.sigs, names);
      LinkSigAfter(prev, s, Place(names, st.sigs.items[s].name));
    }

    /** Links a signal into the signal list behind the element that a walk has found. */
    method LinkSigAfter(prev: Off, s: Off, ghost i: nat)
      requires Holds() && PoolOk(st.sigs) && i <= |st.sigs.list| && prev == Before(st.sigs.list, i)
      requires s !in st.sigs.list && s !in st.sigs.free
      modifies this`sigs, this`st
      ensures Holds() && st == old(st).(sigs := old(st).sigs.(list := Insert(old(st).sigs.list, i, s)))
    {
      LinkAfterRep(sigs, st.sigs, i, s);
      sigs := LinkAfter(sigs, prev, s);
      st := st.(sigs := st.sigs.(list := Insert(st.sigs.list, i, s)));
    }

    /** `free_sig_struct`: every pin on the signal is unlinked, then the structure is freed. */
    method FreeSigStruct(s: Off)
      requires Holds() && Unlinkable(st) && s !in st.sigs.list && s !in st.sigs.free && s != 0
      modifies this`pins, this`sigs, this`st
      ensures Holds() && st == FreeSig(old(st), s)
    {
      ghost var st' := UnlinkAll(st, st.pins.list, s);
      assert st.pins.list[0..] == st.pins.list;
      var p, k := FindNextOnSig(0, 0, s, st');
      while p != 0
        invariant Holds() && UnlinkPlace(st, k, p, s) && UnlinkLeft(st, k, s, st')
        decreases |st.pins.list| - k
      {
        p, k := UnlinkNext(p, k, s, st');
      }
      UnlinkDone(st, k, s, st');
      ShelveSig(s);
    }

    /** The loop body: the pin is unlinked and the next one on the signal is looked for behind it. */
    method UnlinkNext(p: Off, ghost k: nat, s: Off, ghost st': State) returns (p': Off, ghost k': nat)
      requires Holds() && UnlinkPlace(st, k, p, s) && UnlinkLeft(st, k, s, st') && p != 0 && s != 0
      modifies this`pins, this`sigs, this`st
      ensures Holds() && UnlinkPlace(st, k', p', s) && UnlinkLeft(st, k', s, st')
      ensures st.pins.list == old(st).pins.list && k < k'
    {
      UnlinkStep(st, k, s, st');
      UnlinkPin(p);
      p', k' := FindNextOnSig(p, k + 1, s, st');
    }

    /** `halpr_find_pin_by_sig` behind the pin `prev`, or from the list head on. */
    method FindNextOnSig(prev: Off, ghost k: nat, s: Off, ghost st': State) returns (p: Off, ghost at: nat)
      requires Holds() && UnlinkLeft(st, k, s, st') && prev == Before(st.pins.list, k)
      ensures UnlinkPlace(st, at, p, s) && UnlinkLeft(st, at, s, st') && k <= at
    {
      var start := NextOf(prev, k);
      p, at := FindPinBySig(pins, s, start, k, st.pins);
      UnlinkSkip(st, k, at, s, st');
    }

    /** Puts a signal structure on the free list. */
    method ShelveSig(s: Off)
      requires Holds() && PoolOk(st.sigs) && s !in st.sigs.list && s !in st.sigs.free
      modifies this`sigs, this`st
      ensures Holds()
      ensures var pool := old(st).sigs;
              st == old(st).(sigs := Pool(pool.list, [s] + pool.free, pool.items[s := Sig("", 0, Bit, 0, 0, 0)]))
    {
      PushFreeRep(sigs, st.sigs, s, Sig("", 0, Bit, 0, 0, 0));
      sigs := PushFree(sigs, s, Sig("", 0, Bit, 0, 0, 0));
      st := st.(sigs := Pool(st.sigs.list, [s] + st.sigs.free, st.sigs.items[s := Sig("", 0, Bit, 0, 0, 0)]));
    }

    /** `hal_signal_delete`. */
    method SignalDelete(name: string) returns (r: Result)
      requires Valid()
      modifies this
      ensures Valid() && (st, r) == Hal.SignalDelete(old(st), name)
    {
      if lockConfig {
        return Err(EPERM);
      }
      var prev, s := FindSigByName(sigs, name, st.sigs);
      if s == 0 {
        return Err(EINVAL);
      }
      SignalDeleteKeepsInv(st, name);
      SignalDeleteSteps(st, s);
      DetachSig(prev, s);
      FreeSigStruct(s);
      return Ok;
    }

    /** Takes a signal off the signal list. */
    method DetachSig(prev: Off, s: Off)
      requires Holds() && PoolOk(st.sigs) && s in st.sigs.list && prev == Before(st.sigs.list, IndexOf(st.sigs.list, s))
      modifies this`sigs, this`st
      ensures Holds() && st == old(st).(sigs := Detach(old(st).sigs, s))
      ensures s !in st.sigs.list && s !in st.sigs.free
    {
      DetachAt(st.sigs, IndexOf(st.sigs.list, s));
      UnlinkAfterRep(sigs, st.sigs, IndexOf(st.sigs.list, s));
      sigs := UnlinkAfter(sigs, prev, s);
      st := st.(sigs := Detach(st.sigs, s));
    }

    // -------------------------------------------------------------- components

    /** `hal_init`; `id` is what `rtapi_init` returned, negative if it failed. */
    method CompInit(name: string, id: int) returns (r: Result)
      requires Valid()
      modifies this
      ensures Valid() && (st, r) == Hal.CompInit(old(st), name, id)
    {
      if |name| > HAL_NAME_LEN || id < 0 {
        return Err(EINVAL);
      }
      var taken := FindCompByName(comps, name, st.comps);
      if taken {
        return Err(EINVAL);
      }
      CompInitKeepsInv(st, name, id);
      r := AddComp(name, id);
    }

    /** The rest of `hal_init`: the new structure becomes the head of the list. */
    method AddComp(name: string, id: int) returns (r: Result)
      requires Holds() && PoolOk(st.comps) && 0 < st.arena.bot <= st.arena.top
      requires forall x :: x in st.comps.items ==> st.arena.top <= x
      modifies this`comps, this`arena, this`st
      ensures Holds()
      ensures var (pool, m, c) := Alloc(old(st).comps, old(st).arena, COMP_SIZE, Comp(id, name, false));
              if c == 0 then r == Err(ENOMEM) && st == old(st).(comps := pool, arena := m)
              else r == Ok && st == old(st).(comps := pool.(list := [c] + pool.list), arena := m)
    {
      AllocFacts(st.comps, st.arena, COMP_SIZE, Comp(id, name, false));
      ghost var pool := Alloc(st.comps, st.arena, COMP_SIZE, Comp(id, name, false)).0;
      var c;
      comps, arena, c := AllocStruct(comps, arena, COMP_SIZE, Comp(id, name, false), st.comps);
      st := st.(comps := pool, arena := arena);
      if c == 0 {
        return Err(ENOMEM);
      }
      LinkCompFirst(c);
      return Ok;
    }

    /** Links a component in at the head of the component list. */
    method LinkCompFirst(c: Off)
      requires Holds() && PoolOk(st.comps) && c !in st.comps.list && c !in st.comps.free
      modifies this`comps, this`st
      ensures Holds() && st == old(st).(comps := old(st).comps.(list := [c] + old(st).comps.list))
    {
      LinkAfterRep(comps, st.comps, 0, c);
      comps := LinkAfter(comps, 0, c);
      assert Insert(st.comps.list, 0, c) == [c] + st.comps.list;
      st := st.(comps := st.comps.(list := [c] + st.comps.list));
    }

    /** `hal_ready`. */
    method CompReady(id: int) returns (r: Result)
      requires Valid()
      modifies this
      ensures Valid() && (st, r) == Hal.CompReady(old(st), id)
    {
      var _, c := FindCompById(comps, id, st.comps);
      if c == 0 || comps.items[c].ready {
        return Err(EINVAL);
      }
      CompReadyKeepsInv(st, id);
      MarkReady(c);
      return Ok;
    }

    method MarkReady(c: Off)
      requires Holds() && c in st.comps.items
      modifies this`comps, this`st
      ensures Holds()
      ensures var items := old(st).comps.items;
              st == old(st).(comps := old(st).comps.(items := items[c := items[c].(ready := true)]))
    {
      comps := comps.(items := comps.items[c := comps.items[c].(ready := true)]);
      st := st.(comps := st.comps.(items := comps.items));
    }
  }

  // ----------------------------------------------------------------- the exit loop

  lemma DetachAt<T>(p: Pool<T>, k: nat)
    requires PoolOk(p) && k < |p.list|
    ensures p.list[k] in p.list && Detach(p, p.list[k]) == p.(list := Remove(p.list, k))
    ensures var q := p.(list := Remove(p.list, k)); PoolOk(q) && p.list[k] !in q.list && p.list[k] !in q.free
  {
    assert IndexOf(p.list, p.list[k]) == k;
    DetachMembers(p, p.list[k]);
  }

  lemma {:induction false} OwnedFrame(list: seq<Off>, items: map<Off, Pin>, items': map<Off, Pin>, c: Off)
    requires forall x :: x in list ==> x in items && x in items' && items'[x].owner == items[x].owner
    ensures Owned(list, items', c) == Owned(list, items, c)
  {
    if list != [] {
      assert list[0] in list;
      OwnedFrame(list[1..], items, items', c);
    }
  }

  /** From position `k` of the pin list on the component owns the pins `ps`; dropping them leads to `st'`. */
  ghost predicate LeftToDrop(st: State, k: nat, c: Off, ps: seq<Off>, st': State) {
    && Inv(st) && k <= |st.pins.list| && ps == Owned(st.pins.list[k..], st.pins.items, c)
    && Distinct(ps) && DropPins(st, ps) == st'
  }

  /** The loop stands at position `k` of the pin list. */
  ghost predicate DropPlace(st: State, prev: Off, next: Off, k: nat) {
    && k <= |st.pins.list| && next == At(st.pins.list, k) && prev == Before(st.pins.list, k)
    && (next == 0 <==> k == |st.pins.list|)
  }

  lemma DropDone(st: State, k: nat, c: Off, ps: seq<Off>, st': State)
    requires LeftToDrop(st, k, c, ps, st') && k == |st.pins.list|
    ensures st == st'
  {
  }

  lemma OwnedFrom(p: Pool<Pin>, k: nat, c: Off)
    requires PoolOk(p) && k < |p.list|
    ensures p.list[k] in p.items
    ensures Owned(p.list[k..], p.items, c)
            == (if p.items[p.list[k]].owner == c then [p.list[k]] else []) + Owned(p.list[k + 1..], p.items, c)
  {
    assert p.list[k] in p.list && p.list[k..][1..] == p.list[k + 1..];
  }

  lemma DropSkip(st: State, k: nat, c: Off, ps: seq<Off>, st': State)
    requires LeftToDrop(st, k, c, ps, st') && k < |st.pins.list| && st.pins.items[st.pins.list[k]].owner != c
    ensures LeftToDrop(st, k + 1, c, ps, st')
  {
    OwnedFrom(st.pins, k, c);
  }

  lemma DropStepOwned(st: State, k: nat, c: Off, ps: seq<Off>)
    requires PoolOk(st.pins) && k < |st.pins.list| && CanUnlink(st, st.pins.list[k]) && st.pins.list[k] in st.pins.list
    requires st.pins.items[st.pins.list[k]].owner == c && ps == Owned(st.pins.list[k..], st.pins.items, c)
    requires PoolOk(DropPin(st, st.pins.list[k]).pins)
    ensures var st1 := DropPin(st, st.pins.list[k]);
            && st1.pins.list == Remove(st.pins.list, k) && ps != [] && ps[0] == st.pins.list[k]
            && ps[1..] == Owned(st1.pins.list[k..], st1.pins.items, c)
  {
    var p, list, items := st.pins.list[k], st.pins.list, st.pins.items;
    OwnedFrom(st.pins, k, c);
    DropPinFrame(st, p);
    DetachAt(st.pins, k);
    var st1 := DropPin(st, p);
    assert st1.pins.list[k..] == list[k + 1..];
    OwnedFrame(list[k + 1..], items, st1.pins.items, c);
  }

  lemma DropHead(st: State, ps: seq<Off>, p: Off) returns (st1: State)
    requires Inv(st) && Distinct(ps) && ps != [] && p == ps[0] && forall p :: p in ps ==> p in st.pins.list
    ensures CanUnlink(st, p) && Inv(st1) && st1 == DropPin(st, p)
    ensures Distinct(ps[1..]) && (forall p :: p in ps[1..] ==> p in st1.pins.list)
    ensures DropPins(st, ps) == DropPins(st1, ps[1..])
  {
    DropPinKeepsInv(st, p);
    DropPinFacts(st, p);
    st1 := DropPin(st, p);
    DropFirst(st, ps, st1);
  }

  lemma DropStep(st: State, k: nat, c: Off, ps: seq<Off>, st': State)
    requires LeftToDrop(st, k, c, ps, st') && k < |st.pins.list| && st.pins.items[st.pins.list[k]].owner == c
    ensures var p := st.pins.list[k];
            && CanUnlink(st, p) && DropPin(st, p).pins.list == Remove(st.pins.list, k)
            && ps != [] && LeftToDrop(DropPin(st, p), k, c, ps[1..], st')
  {
    OwnedFrom(st.pins, k, c);
    var st1 := DropHead(st, ps, st.pins.list[k]);
    DropStepOwned(st, k, c, ps);
  }

  /** What the pin loop has to reach for the exit to come out as it should. */
  lemma ExitTarget(st: State, id: int, c: Off) returns (ps: seq<Off>, st': State)
    requires Inv(st) && c != 0 && c == FindComp(st.comps.list, st.comps.items, id)
    ensures LeftToDrop(st, 0, c, ps, st') && st'.comps == st.comps
    ensures CompExit(st, id) == (WithoutComp(st', st'.comps, c), Ok) && Inv(WithoutComp(st', st'.comps, c))
  {
    CompExitKeepsInv(st, id);
    ps := Owned(st.pins.list, st.pins.items, c);
    assert st.pins.list[0..] == st.pins.list;
    OwnedDistinct(st.pins.list, st.pins.items, c);
    DropPinsFacts(st, ps);
    st' := DropPins(st, ps);
  }

  // --------------------------------------------------------------- the unlink loop

  /** Unlinking the signal's pins from position `k` of the pin list on leads to `st'`. */
  ghost predicate UnlinkLeft(st: State, k: nat, s: Off, st': State) {
    Unlinkable(st) && k <= |st.pins.list| && UnlinkAll(st, st.pins.list[k..], s) == st'
  }

  /** The search has stopped at position `k`: at a pin on the signal or at the end. */
  ghost predicate UnlinkPlace(st: State, k: nat, p: Off, s: Off) {
    && k <= |st.pins.list| && p == At(st.pins.list, k) && (p == 0 <==> k == |st.pins.list|)
    && (p != 0 ==> p in st.pins.items && st.pins.items[p].signal == s)
  }

  lemma {:induction false} UnlinkSkip(st: State, k: nat, at: nat, s: Off, st': State)
    requires UnlinkLeft(st, k, s, st') && k <= at <= |st.pins.list|
    requires forall i :: k <= i < at ==> st.pins.items[st.pins.list[i]].signal != s
    ensures UnlinkLeft(st, at, s, st')
    decreases at - k
  {
    if k < at {
      assert st.pins.list[k..][1..] == st.pins.list[k + 1..];
      UnlinkSkip(st, k + 1, at, s, st');
    }
  }

  lemma UnlinkPinKeepsUnlinkable(st: State, p: Off)
    requires Unlinkable(st) && p in st.pins.items
    ensures Unlinkable(Hal.UnlinkPin(st, p)) && Hal.UnlinkPin(st, p).pins.list == st.pins.list
  {
    var st1 := Hal.UnlinkPin(st, p);
    forall q | q in st1.pins.items
      ensures CanUnlink(st1, q)
    {
      assert CanUnlink(st, q);
    }
  }

  lemma UnlinkStep(st: State, k: nat, s: Off, st': State)
    requires UnlinkLeft(st, k, s, st') && k < |st.pins.list| && s != 0
    requires st.pins.list[k] in st.pins.items && st.pins.items[st.pins.list[k]].signal == s
    ensures var p := st.pins.list[k];
            && CanUnlink(st, p) && UnlinkLeft(Hal.UnlinkPin(st, p), k + 1, s, st')
            && Hal.UnlinkPin(st, p).pins.list == st.pins.list
  {
    assert st.pins.list[k..][1..] == st.pins.list[k + 1..];
    UnlinkPinKeepsUnlinkable(st, st.pins.list[k]);
  }

  lemma UnlinkDone(st: State, k: nat, s: Off, st': State)
    requires UnlinkLeft(st, k, s, st') && k == |st.pins.list|
    ensures st == st'
  {
  }
}
