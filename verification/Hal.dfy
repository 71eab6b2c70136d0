/**
 Components, pins and signals of the HAL (src/hal/hal_lib.c), as values: what each call
 does to the name-sorted lists, the free lists, the structures and the values.
 */
module Hal {
  import opened Lists
  import opened Names
  import opened Shmem

  /** An offset into shared memory; 0 stands for "none". */
  type Off = nat

  /** HAL values are opaque; cleared memory reads as 0. */
  type Value = int

  datatype Type = Bit | Float | S32 | U32 | PortHandle

  datatype Dir = In | Out | Io

  /** Where a component's data pointer points: at the pin's own dummy or at a signal's value cell. */
  datatype Target = OwnDummy | Cell(at: Off)

  datatype Pin = Pin(name: string, owner: Off, signal: Off, dummy: Value, target: Target,
                     oldname: Off, typ: Type, dir: Dir)

  datatype Sig = Sig(name: string, data: Off, typ: Type, readers: int, writers: int, bidirs: int)

  datatype Comp = Comp(id: int, name: string, ready: bool)

  /** A saved original name; `next` is used only on the free list. */
  datatype OldName = OldName(name: string, next: Off)

  /** Structures of one kind: the list in use, the free list and every structure ever made. */
  datatype Pool<T> = Pool(list: seq<Off>, free: seq<Off>, items: map<Off, T>)

  /** `held` are the old-name structures that parameters hold. */
  datatype State = State(
    pins: Pool<Pin>, sigs: Pool<Sig>, comps: Pool<Comp>,
    cells: map<Off, Value>,
    oldFree: Off, olds: map<Off, OldName>, held: set<Off>,
    arena: Arena, lockLoad: bool, lockConfig: bool)

  datatype Error = EINVAL | EPERM | ENOMEM

  datatype Result = Ok | Err(e: Error)

  /** Structure sizes on a 64-bit machine. */
  const PIN_SIZE: nat := 96
  const SIG_SIZE: nat := 80
  const COMP_SIZE: nat := 104
  const OLDNAME_SIZE: nat := 56
  const CELL_SIZE: nat := 8

  function Init(header: nat): (st: State)
    requires 0 < header <= HAL_SIZE
  {
    State(Pool([], [], map[]), Pool([], [], map[]), Pool([], [], map[]), map[], 0, map[], {},
          Arena(header, HAL_SIZE), false, false)
  }

  // --------------------------------------------------------------------- pools

  /** Every structure on a list exists, none is on two lists or twice on one. */
  ghost predicate PoolOk<T>(p: Pool<T>) {
    && (forall x :: x in p.list || x in p.free ==> x in p.items && x != 0)
    && (forall i, j :: 0 <= i < j < |p.list| ==> p.list[i] != p.list[j])
    && (forall i, j :: 0 <= i < j < |p.free| ==> p.free[i] != p.free[j])
    && (forall x :: x in p.list ==> x !in p.free)
  }

  /** The first index of `x` in a list, or its length. */
  function IndexOf(list: seq<Off>, x: Off): (i: nat)
    ensures i <= |list|
    ensures i < |list| <==> x in list
    ensures i < |list| ==> list[i] == x
  {
    if list == [] || list[0] == x then 0 else 1 + IndexOf(list[1..], x)
  }

  function Detach<T>(p: Pool<T>, x: Off): (p': Pool<T>)
    requires x in p.list
  {
    p.(list := Remove(p.list, IndexOf(p.list, x)))
  }

  /** A structure from the free list or from fresh memory, holding `item`; not yet on any list. */
  function Alloc<T>(p: Pool<T>, m: Arena, size: nat, item: T): (r: (Pool<T>, Arena, Off)) {
    if p.free != [] then (Pool(p.list, p.free[1..], p.items[p.free[0] := item]), m, p.free[0])
    else
      var (m', got) := AllocDown(m, size);
      if got.None? then (p, m', 0) else (p.(items := p.items[got.value := item]), m', got.value)
  }

  // ------------------------------------------------------------------- lookups

  function PinNames(list: seq<Off>, items: map<Off, Pin>): (names: seq<string>)
    requires forall x :: x in list ==> x in items
    ensures |names| == |list| && forall i :: 0 <= i < |names| ==> names[i] == items[list[i]].name
  {
    seq(|list|, i requires 0 <= i < |list| => items[list[i]].name)
  }

  function SigNames(list: seq<Off>, items: map<Off, Sig>): (names: seq<string>)
    requires forall x :: x in list ==> x in items
    ensures |names| == |list| && forall i :: 0 <= i < |names| ==> names[i] == items[list[i]].name
  {
    seq(|list|, i requires 0 <= i < |list| => items[list[i]].name)
  }

  /** A pin answers to its name and, while it is aliased, to its original name. */
  predicate AnswersTo(pin: Pin, olds: map<Off, OldName>, name: string) {
    pin.name == name || (pin.oldname != 0 && pin.oldname in olds && olds[pin.oldname].name == name)
  }

  function FindPin(list: seq<Off>, items: map<Off, Pin>, olds: map<Off, OldName>, name: string): (p: Off)
    requires forall x :: x in list ==> x in items
    ensures p != 0 ==> p in list && AnswersTo(items[p], olds, name)
  {
    if list == [] then 0
    else if AnswersTo(items[list[0]], olds, name) then list[0]
    else FindPin(list[1..], items, olds, name)
  }

  function FindSig(list: seq<Off>, items: map<Off, Sig>, name: string): (s: Off)
    requires forall x :: x in list ==> x in items
    ensures s != 0 ==> s in list && items[s].name == name
  {
    if list == [] then 0
    else if items[list[0]].name == name then list[0]
    else FindSig(list[1..], items, name)
  }

  function FindComp(list: seq<Off>, items: map<Off, Comp>, id: int): (c: Off)
    requires forall x :: x in list ==> x in items
    ensures c != 0 ==> c in list && items[c].id == id
  {
    if list == [] then 0
    else if items[list[0]].id == id then list[0]
    else FindComp(list[1..], items, id)
  }

  predicate CompNameTaken(list: seq<Off>, items: map<Off, Comp>, name: string)
    requires forall x :: x in list ==> x in items
  {
    exists i :: 0 <= i < |list| && items[list[i]].name == name
  }

  // ------------------------------------------------------------ links and values

  /** The effect of linking (+1) or unlinking (-1) a pin of this direction on a signal's counts. */
  function Recount(s: Sig, dir: Dir, n: int): (s': Sig) {
    s.(readers := s.readers + (if dir != Out then n else 0),
       writers := s.writers + (if dir == Out then n else 0),
       bidirs := s.bidirs + (if dir == Io then n else 0))
  }

  /** What the owner of a pin reads through its data pointer. */
  function Reads(st: State, p: Off): (v: Value)
    requires p in st.pins.items
  {
    match st.pins.items[p].target
    case OwnDummy => st.pins.items[p].dummy
    case Cell(at) => if at in st.cells then st.cells[at] else 0
  }

  function SetPin(st: State, p: Off, pin: Pin): (st': State) {
    st.(pins := st.pins.(items := st.pins.items[p := pin]))
  }

  function SetSig(st: State, s: Off, sig: Sig): (st': State) {
    st.(sigs := st.sigs.(items := st.sigs.items[s := sig]))
  }

  /** The structures and cells an unlink follows are there. */
  predicate CanUnlink(st: State, p: Off) {
    p in st.pins.items &&
    var s := st.pins.items[p].signal;
    s != 0 ==> s in st.sigs.items && st.sigs.items[s].data in st.cells
  }

  /** `unlink_pin`: the pin keeps the signal's value in its dummy; a port pin goes empty. */
  function UnlinkPin(st: State, p: Off): (st': State)
    requires CanUnlink(st, p)
    ensures forall q :: CanUnlink(st, q) ==> CanUnlink(st', q)
  {
    var pin := st.pins.items[p];
    if pin.signal == 0 then st
    else
      var sig := st.sigs.items[pin.signal];
      var v := if pin.typ == PortHandle then 0 else st.cells[sig.data];
      SetSig(SetPin(st, p, pin.(target := OwnDummy, dummy := v, signal := 0)), pin.signal, Recount(sig, pin.dir, -1))
  }

  /** The order of the checks in `hal_link` does not matter: all refuse with the same error. */
  predicate MayLink(pin: Pin, sig: Sig) {
    && pin.signal == 0
    && pin.typ == sig.typ
    && !(pin.dir == Out && (sig.writers > 0 || sig.bidirs > 0))
    && !(pin.dir == Io && pin.typ == PortHandle)
    && !(pin.dir == Io && sig.writers > 0)
    && !(pin.typ == PortHandle && pin.dir == In && sig.readers > 0)
  }

  /** The pin's default value is copied to the signal. */
  predicate DrivesDefault(pin: Pin, sig: Sig) {
    pin.typ != PortHandle && (pin.dir != In || sig.readers == 0) && sig.writers == 0 && sig.bidirs == 0
  }

  /** `hal_link` once the pin and the signal have been found. */
  function LinkPin(st: State, p: Off, s: Off): (r: (State, Result))
    requires p in st.pins.items && s in st.sigs.items
  {
    var pin, sig := st.pins.items[p], st.sigs.items[s];
    if pin.signal == s then (st, Ok)
    else if !MayLink(pin, sig) then (st, Err(EINVAL))
    else
      var st1 := if DrivesDefault(pin, sig) then st.(cells := st.cells[sig.data := pin.dummy]) else st;
      (SetSig(SetPin(st1, p, pin.(target := Cell(sig.data), signal := s)), s, Recount(sig, pin.dir, 1)), Ok)
  }

  ghost predicate ListsOk(st: State) {
    PoolOk(st.pins) && PoolOk(st.sigs) && PoolOk(st.comps)
  }

  ghost function Link(st: State, pinName: string, sigName: string): (r: (State, Result))
    requires ListsOk(st)
  {
    if st.lockConfig then (st, Err(EPERM))
    else
      var p := FindPin(st.pins.list, st.pins.items, st.olds, pinName);
      var s := FindSig(st.sigs.list, st.sigs.items, sigName);
      if p == 0 || s == 0 then (st, Err(EINVAL)) else LinkPin(st, p, s)
  }

  ghost predicate Unlinkable(st: State) {
    ListsOk(st) && forall p :: p in st.pins.items ==> CanUnlink(st, p)
  }

  ghost function Unlink(st: State, pinName: string): (r: (State, Result))
    requires Unlinkable(st)
  {
    if st.lockConfig then (st, Err(EPERM))
    else
      var p := FindPin(st.pins.list, st.pins.items, st.olds, pinName);
      if p == 0 then (st, Err(EINVAL)) else (UnlinkPin(st, p), Ok)
  }

  // ----------------------------------------------------------------- old names

  /** Every reference to an old-name structure is to one that exists. */
  ghost predicate OldRefs(st: State) {
    && (st.oldFree != 0 ==> st.oldFree in st.olds)
    && (forall o :: o in st.olds && st.olds[o].next != 0 ==> st.olds[o].next in st.olds)
    && (forall p :: p in st.pins.items && st.pins.items[p].oldname != 0 ==> st.pins.items[p].oldname in st.olds)
    && (forall o :: o in st.held ==> o in st.olds && o != 0)
  }

  /** `free_oldname_struct`. */
  function FreeOldName(st: State, o: Off): (st': State) {
    st.(olds := st.olds[o := OldName("", st.oldFree)], oldFree := o)
  }

  /** `halpr_alloc_oldname_struct`: from the free list, else from fresh memory; 0 if there is none. */
  function AllocOldName(st: State): (r: (State, Off))
    requires st.oldFree != 0 ==> st.oldFree in st.olds
  {
    if st.oldFree != 0 then
      (st.(oldFree := st.olds[st.oldFree].next, olds := st.olds[st.oldFree := OldName("", 0)]), st.oldFree)
    else
      var (m, got) := AllocDown(st.arena, OLDNAME_SIZE);
      if got.None? then (st, 0)
      else (st.(arena := m, olds := st.olds[got.value := OldName("", 0)]), got.value)
  }

  /** A parameter's first alias takes an old-name structure off the same free list. */
  function ParamSave(st: State): (st': State)
    requires st.oldFree != 0 ==> st.oldFree in st.olds
  {
    var (st1, o) := AllocOldName(st);
    if o == 0 then st1 else st1.(held := st1.held + {o})
  }

  /** Removing a parameter's alias gives its old-name structure back. */
  function ParamRestore(st: State, o: Off): (st': State) {
    if o !in st.held then st else FreeOldName(st.(held := st.held - {o}), o)
  }

  /**
   `free_param_struct` for an aliased parameter: its old-name structure goes to the free list, but
   the parameter structure goes on naming it, and so does the next parameter built on it.
   */
  function ParamFreed(st: State, o: Off): (st': State) {
    if o !in st.held then st else FreeOldName(st, o)
  }

  /** An alias call that is refused, or needs no structure, takes one and gives it back. */
  function ParamReserve(st: State): (st': State)
    requires st.oldFree != 0 ==> st.oldFree in st.olds
  {
    var (st1, o) := AllocOldName(st);
    if o == 0 then st1 else FreeOldName(st1, o)
  }

  // ---------------------------------------------------------------------- pins

  const CLEARED_PIN := Pin("", 0, 0, 0, OwnDummy, 0, Bit, In)

  /** A pin structure that is cleared in every field but `oldname`, which the library leaves. */
  function Cleared(pin: Pin): Pin { CLEARED_PIN.(oldname := pin.oldname) }

  /** `free_pin_struct` for a pin that has been taken off the pin list. */
  function FreePin(st: State, p: Off): (st': State)
    requires CanUnlink(st, p)
  {
    var st1 := UnlinkPin(st, p);
    var pin := st1.pins.items[p];
    var st2 := if pin.oldname != 0 then FreeOldName(st1, pin.oldname) else st1;
    st2.(pins := Pool(st2.pins.list, [p] + st2.pins.free, st2.pins.items[p := Cleared(pin)]))
  }

  /** `alloc_pin_struct`: fresh memory is clear; a reused structure keeps its `oldname`. */
  function AllocPin(st: State): (r: (State, Off)) {
    var kept := if st.pins.free != [] && st.pins.free[0] in st.pins.items then st.pins.items[st.pins.free[0]].oldname else 0;
    var (pool, m, p) := Alloc(st.pins, st.arena, PIN_SIZE, CLEARED_PIN.(oldname := kept));
    (st.(pins := pool, arena := m), p)
  }

  /** The end of `hal_pin_new`: the allocated structure joins the list, or is freed if its name is taken. */
  ghost function FinishPin(st: State, st1: State, p: Off, pin: Pin): (r: (State, Result))
    requires PoolOk(st.pins) && st1.pins.list == st.pins.list && pin.signal == 0
  {
    var names := PinNames(st.pins.list, st.pins.items);
    if pin.name in names then (FreePin(SetPin(st1, p, pin), p), Err(EINVAL))
    else (st1.(pins := Pool(Insert(st1.pins.list, Place(names, pin.name), p), st1.pins.free, st1.pins.items[p := pin])), Ok)
  }

  /** `hal_pin_new`; `ptrOk` says that the data pointer lies in shared memory. */
  ghost function PinNew(st: State, name: string, typ: Type, dir: Dir, compId: int, ptrOk: bool): (r: (State, Result))
    requires Unlinkable(st)
  {
    if (typ == PortHandle && dir == Io) || |name| > HAL_NAME_LEN then (st, Err(EINVAL))
    else if st.lockLoad then (st, Err(EPERM))
    else
      var c := FindComp(st.comps.list, st.comps.items, compId);
      if c == 0 || !ptrOk || st.comps.items[c].ready then (st, Err(EINVAL))
      else
        var (st1, p) := AllocPin(st);
        if p == 0 then (st1, Err(ENOMEM))
        else FinishPin(st, st1, p, st1.pins.items[p].(name := name, owner := c, typ := typ, dir := dir))
  }

  /** `hal_pin_alias` once the pin has been found and an old-name structure is sure to be free. */
  function Rename(st: State, p: Off, alias: Option<string>): (st': State)
    requires p in st.pins.items && st.oldFree != 0 && st.oldFree in st.olds
    requires st.pins.items[p].oldname != 0 ==> st.pins.items[p].oldname in st.olds
  {
    var pin := st.pins.items[p];
    match alias
    case Some(name) =>
      if pin.oldname == 0 then
        var (st1, o) := AllocOldName(st);
        SetPin(st1.(olds := st1.olds[o := st1.olds[o].(name := pin.name)]), p, pin.(oldname := o, name := name))
      else SetPin(st, p, pin.(name := name))
    case None =>
      if pin.oldname != 0 then
        FreeOldName(SetPin(st, p, pin.(name := st.olds[pin.oldname].name, oldname := 0)), pin.oldname)
      else st
  }

  /** Takes the pin out of the list, renames it and puts it back where its name belongs. */
  ghost function Realias(st: State, p: Off, alias: Option<string>): (st': State)
    requires PoolOk(st.pins) && p in st.pins.list && OldRefs(st) && st.oldFree != 0
  {
    var rest := Detach(st.pins, p);
    var st1 := Rename(st.(pins := rest), p, alias);
    DetachMembers(st.pins, p);
    var names := PinNames(rest.list, st.pins.items);
    var name := st1.pins.items[p].name;
    st1.(pins := st1.pins.(list := Insert(rest.list, Place(names, name), p)))
  }

  lemma DetachMembers<T>(p: Pool<T>, x: Off)
    requires PoolOk(p) && x in p.list
    ensures forall y :: y in Detach(p, x).list <==> y in p.list && y != x
    ensures PoolOk(Detach(p, x))
  {
    var i := IndexOf(p.list, x);
    var r := Detach(p, x).list;
    forall y | y in p.list && y != x
      ensures y in r
    {
      var k :| 0 <= k < |p.list| && p.list[k] == y;
      assert r[if k < i then k else k - 1] == y;
    }
  }

  ghost function PinAlias(st: State, pinName: string, alias: Option<string>): (r: (State, Result))
    requires ListsOk(st) && OldRefs(st)
  {
    if st.lockConfig then (st, Err(EPERM))
    else if alias.Some? && |alias.value| > HAL_NAME_LEN then (st, Err(EINVAL))
    else if alias.Some? && FindPin(st.pins.list, st.pins.items, st.olds, alias.value) != 0 then (st, Err(EINVAL))
    else
      var (st1, o) := AllocOldName(st);
      if o == 0 then (st1, Err(EINVAL))
      else
        var st2 := FreeOldName(st1, o);
        var p := FindPin(st2.pins.list, st2.pins.items, st2.olds, pinName);
        if p == 0 then (st2, Err(EINVAL)) else (Realias(st2, p, alias), Ok)
  }

  // ------------------------------------------------------------------- signals

  /** The end of `hal_signal_new`: the value cell is cleared and the structure joins the list. */
  ghost function FinishSig(st: State, pool: Pool<Sig>, m: Arena, s: Off, sig: Sig): (st': State)
    requires PoolOk(st.sigs) && pool.list == st.sigs.list
  {
    var names := SigNames(st.sigs.list, st.sigs.items);
    st.(sigs := Pool(Insert(pool.list, Place(names, sig.name), s), pool.free, pool.items[s := sig]),
        arena := m, cells := st.cells[sig.data := 0])
  }

  ghost function SignalNew(st: State, name: string, typ: Type): (r: (State, Result))
    requires ListsOk(st)
  {
    if |name| > HAL_NAME_LEN then (st, Err(EINVAL))
    else if st.lockConfig then (st, Err(EPERM))
    else if FindSig(st.sigs.list, st.sigs.items, name) != 0 then (st, Err(EINVAL))
    else
      var (m1, cell) := AllocUp(st.arena, CELL_SIZE);
      var (pool, m2, s) := Alloc(st.sigs, m1, SIG_SIZE, Sig("", 0, Bit, 0, 0, 0));
      if cell.None? || s == 0 then (st.(sigs := pool, arena := m2), Err(ENOMEM))
      else (FinishSig(st, pool, m2, s, Sig(name, cell.value, typ, 0, 0, 0)), Ok)
  }

  /** The loop of `free_sig_struct`: every listed pin on the signal is unlinked. */
  ghost function UnlinkAll(st: State, list: seq<Off>, s: Off): (st': State)
    requires forall p :: p in list ==> CanUnlink(st, p)
    ensures forall p :: CanUnlink(st, p) ==> CanUnlink(st', p)
    ensures st'.sigs.items.Keys == st.sigs.items.Keys && st'.sigs.list == st.sigs.list && st'.sigs.free == st.sigs.free
    decreases list
  {
    if list == [] then st
    else
      assert CanUnlink(st, list[0]);
      if st.pins.items[list[0]].signal == s && s != 0 then UnlinkAll(UnlinkPin(st, list[0]), list[1..], s)
      else UnlinkAll(st, list[1..], s)
  }

  /** `free_sig_struct` for a signal that has been taken off the signal list. */
  ghost function FreeSig(st: State, s: Off): (st': State)
    requires Unlinkable(st)
  {
    var st1 := UnlinkAll(st, st.pins.list, s);
    st1.(sigs := Pool(st1.sigs.list, [s] + st1.sigs.free, st1.sigs.items[s := Sig("", 0, Bit, 0, 0, 0)]))
  }

  ghost function SignalDelete(st: State, name: string): (r: (State, Result))
    requires Unlinkable(st)
  {
    if st.lockConfig then (st, Err(EPERM))
    else
      var s := FindSig(st.sigs.list, st.sigs.items, name);
      if s == 0 then (st, Err(EINVAL))
      else
        DetachMembers(st.sigs, s);
        (FreeSig(st.(sigs := Detach(st.sigs, s)), s), Ok)
  }

  // ---------------------------------------------------------------- components

  /** `hal_init`; `id` is what `rtapi_init` returned, negative if it failed. */
  ghost function CompInit(st: State, name: string, id: int): (r: (State, Result))
    requires ListsOk(st)
  {
    if |name| > HAL_NAME_LEN || id < 0 || CompNameTaken(st.comps.list, st.comps.items, name) then (st, Err(EINVAL))
    else
      var (pool, m, c) := Alloc(st.comps, st.arena, COMP_SIZE, Comp(id, name, false));
      var st1 := st.(comps := pool, arena := m);
      if c == 0 then (st1, Err(ENOMEM))
      else (st1.(comps := pool.(list := [c] + pool.list)), Ok)
  }

  ghost function CompReady(st: State, id: int): (r: (State, Result))
    requires ListsOk(st)
  {
    var c := FindComp(st.comps.list, st.comps.items, id);
    if c == 0 || st.comps.items[c].ready then (st, Err(EINVAL))
    else (st.(comps := st.comps.(items := st.comps.items[c := st.comps.items[c].(ready := true)])), Ok)
  }

  /** The pins a component owns, in list order. */
  function Owned(list: seq<Off>, items: map<Off, Pin>, c: Off): (ps: seq<Off>)
    requires forall x :: x in list ==> x in items
    ensures forall p :: p in ps <==> p in list && items[p].owner == c
  {
    if list == [] then []
    else (if items[list[0]].owner == c then [list[0]] else []) + Owned(list[1..], items, c)
  }

  /** Takes one pin off the pin list and frees it. */
  ghost function DropPin(st: State, p: Off): (st': State)
    requires PoolOk(st.pins) && p in st.pins.list && CanUnlink(st, p)
  {
    FreePin(st.(pins := Detach(st.pins, p)), p)
  }
}
