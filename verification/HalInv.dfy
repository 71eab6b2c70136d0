/** The well-formedness invariant of the HAL database and the proof that every call keeps it. */
module HalInv {
  import opened Lists
  import opened Names
  import opened Shmem
  import opened Hal

  // ----------------------------------------------------------------- invariant

  /** Every pin structure ever made is on the pin list or on the free list. */
  ghost predicate Accounted(pins: Pool<Pin>) {
    forall p :: p in pins.items ==> p in pins.list || p in pins.free
  }

  /** An unlinked pin points at its dummy, a linked one at the value of a live signal of its type. */
  predicate LinkOk(pin: Pin, sigs: Pool<Sig>) {
    && (pin.signal == 0 ==> pin.target == OwnDummy)
    && (pin.signal != 0 ==>
          && pin.signal in sigs.list && pin.signal in sigs.items
          && sigs.items[pin.signal].typ == pin.typ
          && pin.target == Cell(sigs.items[pin.signal].data))
    && !(pin.typ == PortHandle && pin.dir == Io)
  }

  ghost predicate LinksOk(pins: Pool<Pin>, sigs: Pool<Sig>) {
    && (forall p :: p in pins.list && p in pins.items ==> LinkOk(pins.items[p], sigs))
    && (forall p :: p in pins.free && p in pins.items ==> pins.items[p].signal == 0 && pins.items[p].target == OwnDummy)
  }

  ghost predicate OwnersOk(pins: Pool<Pin>, comps: Pool<Comp>) {
    forall p :: p in pins.list && p in pins.items ==> pins.items[p].owner in comps.list
  }

  datatype Kind = Reader | Writer | Bidir

  predicate HasKind(dir: Dir, kind: Kind) {
    match kind
    case Reader => dir != Out
    case Writer => dir == Out
    case Bidir => dir == Io
  }

  predicate InGroup(pins: Pool<Pin>, p: Off, s: Off, kind: Kind) {
    p in pins.items && pins.items[p].signal == s && HasKind(pins.items[p].dir, kind)
  }

  /** The listed pins of one kind that are linked to `s`. */
  ghost function Group(pins: Pool<Pin>, s: Off, kind: Kind): (g: set<Off>) {
    set p | p in pins.list && InGroup(pins, p, s, kind)
  }

  /** The counts kept in a signal are the numbers of pins linked to it. */
  ghost predicate CountOk(pins: Pool<Pin>, s: Off, sig: Sig) {
    && sig.readers == |Group(pins, s, Reader)|
    && sig.writers == |Group(pins, s, Writer)|
    && sig.bidirs == |Group(pins, s, Bidir)|
  }

  ghost predicate CountsOk(pins: Pool<Pin>, sigs: Pool<Sig>) {
    forall s :: s in sigs.list && s in sigs.items ==> CountOk(pins, s, sigs.items[s])
  }

  /** One writer at most, never together with a bidirectional pin; ports have one reader at most. */
  predicate RulesOk(sig: Sig) {
    && sig.writers <= 1
    && !(sig.writers > 0 && sig.bidirs > 0)
    && (sig.typ == PortHandle ==> sig.readers <= 1 && sig.bidirs == 0)
  }

  ghost predicate SigsOk(sigs: Pool<Sig>, cells: map<Off, Value>) {
    && (forall s :: s in sigs.list && s in sigs.items ==> RulesOk(sigs.items[s]) && sigs.items[s].data in cells)
    && (forall s, t :: s in sigs.list && t in sigs.list && s in sigs.items && t in sigs.items && s != t ==>
          sigs.items[s].data != sigs.items[t].data)
  }

  ghost predicate SortedOk(pins: Pool<Pin>, sigs: Pool<Sig>)
    requires PoolOk(pins) && PoolOk(sigs)
  {
    Sorted(PinNames(pins.list, pins.items)) && Sorted(SigNames(sigs.list, sigs.items))
  }

  /** Structures lie at or above the free area, value cells below it. */
  ghost predicate MemOk(st: State) {
    && 0 < st.arena.bot <= st.arena.top
    && (forall p :: p in st.pins.items ==> st.arena.top <= p)
    && (forall s :: s in st.sigs.items ==> st.arena.top <= s)
    && (forall c :: c in st.comps.items ==> st.arena.top <= c)
    && (forall o :: o in st.olds ==> st.arena.top <= o)
    && (forall c :: c in st.cells ==> c < st.arena.bot)
  }

  /** What the invariant says about links, counts and value cells. */
  ghost predicate LinkInv(pins: Pool<Pin>, sigs: Pool<Sig>, cells: map<Off, Value>) {
    LinksOk(pins, sigs) && CountsOk(pins, sigs) && SigsOk(sigs, cells)
  }

  /** What the invariant says about the lists, the owners and the memory. */
  ghost predicate ListInv(st: State) {
    && ListsOk(st) && Accounted(st.pins) && SortedOk(st.pins, st.sigs)
    && OwnersOk(st.pins, st.comps) && OldRefs(st) && MemOk(st)
  }

  ghost predicate Inv(st: State) {
    ListInv(st) && LinkInv(st.pins, st.sigs, st.cells)
  }

  lemma InvUnlinkable(st: State)
    requires Inv(st)
    ensures Unlinkable(st)
  {
  }

  // ------------------------------------------------------------------ counting

  /** Changing one listed pin moves it into or out of a group and nothing else. */
  lemma GroupAfterSet(pins: Pool<Pin>, p: Off, pin: Pin, s: Off, kind: Kind)
    requires p in pins.list && p in pins.items
    ensures var g, g' := Group(pins, s, kind), Group(pins.(items := pins.items[p := pin]), s, kind);
            && g' - {p} == g - {p}
            && (p in g' <==> pin.signal == s && HasKind(pin.dir, kind))
            && |g'| == |g| - (if InGroup(pins, p, s, kind) then 1 else 0)
                           + (if pin.signal == s && HasKind(pin.dir, kind) then 1 else 0)
  {
    var g, g' := Group(pins, s, kind), Group(pins.(items := pins.items[p := pin]), s, kind);
    SameGroup(pins, p, pin, s, kind);
    WithoutOne(g, p);
    WithoutOne(g', p);
  }

  lemma SameGroup(pins: Pool<Pin>, p: Off, pin: Pin, s: Off, kind: Kind)
    requires p in pins.list && p in pins.items
    ensures var g, g' := Group(pins, s, kind), Group(pins.(items := pins.items[p := pin]), s, kind);
            && g' - {p} == g - {p} && (p in g <==> InGroup(pins, p, s, kind))
            && (p in g' <==> pin.signal == s && HasKind(pin.dir, kind))
  {
  }

  lemma WithoutOne(g: set<Off>, p: Off)
    ensures |g| == |g - {p}| + (if p in g then 1 else 0)
  {
    assert p in g ==> g == (g - {p}) + {p};
    assert p !in g ==> g == g - {p};
  }

  lemma CountAfterSet(pins: Pool<Pin>, p: Off, pin: Pin, s: Off, sig: Sig)
    requires p in pins.list && p in pins.items && CountOk(pins, s, sig)
    ensures var sig1 := if pins.items[p].signal == s then Recount(sig, pins.items[p].dir, -1) else sig;
            var sig2 := if pin.signal == s then Recount(sig1, pin.dir, 1) else sig1;
            CountOk(pins.(items := pins.items[p := pin]), s, sig2)
  {
    GroupAfterSet(pins, p, pin, s, Reader);
    GroupAfterSet(pins, p, pin, s, Writer);
    GroupAfterSet(pins, p, pin, s, Bidir);
  }

  // --------------------------------------------------------- linking and unlinking

  /**
   One listed pin changes its link to one listed signal, whose counts change with it, while
   the signal keeps its name, type and cell.
   */
  lemma RelinkKeeps(pins: Pool<Pin>, sigs: Pool<Sig>, cells: map<Off, Value>, p: Off, pin: Pin, s: Off, sig: Sig)
    requires PoolOk(pins) && PoolOk(sigs) && LinkInv(pins, sigs, cells)
    requires p in pins.list && s in sigs.list
    requires pins.items[p].signal in {0, s} && pin.signal in {0, s}
    requires sig.data == sigs.items[s].data && sig.typ == sigs.items[s].typ && RulesOk(sig)
    requires CountOk(pins.(items := pins.items[p := pin]), s, sig)
    requires LinkOk(pin, sigs)
    ensures LinkInv(pins.(items := pins.items[p := pin]), sigs.(items := sigs.items[s := sig]), cells)
  {
    var pins', sigs' := pins.(items := pins.items[p := pin]), sigs.(items := sigs.items[s := sig]);
    forall t | t in sigs'.list && t in sigs'.items
      ensures CountOk(pins', t, sigs'.items[t])
    {
      if t != s {
        CountAfterSet(pins, p, pin, t, sigs.items[t]);
      }
    }
    forall q | q in pins'.list && q in pins'.items
      ensures LinkOk(pins'.items[q], sigs')
    {
      assert q != p ==> LinkOk(pins.items[q], sigs);
    }
  }

  lemma UnlinkKeepsLinkInv(st: State, p: Off)
    requires Inv(st) && p in st.pins.list && CanUnlink(st, p)
    ensures var st' := UnlinkPin(st, p); LinkInv(st'.pins, st'.sigs, st'.cells)
  {
    var pin := st.pins.items[p];
    assert LinkOk(pin, st.sigs);
    if pin.signal != 0 {
      var s, sig := pin.signal, st.sigs.items[pin.signal];
      var pin' := UnlinkPin(st, p).pins.items[p];
      CountAfterSet(st.pins, p, pin', s, sig);
      GroupNonempty(st.pins, p);
      RelinkKeeps(st.pins, st.sigs, st.cells, p, pin', s, Recount(sig, pin.dir, -1));
    }
  }

  lemma GroupNonempty(pins: Pool<Pin>, p: Off)
    requires p in pins.list && p in pins.items
    ensures forall kind :: HasKind(pins.items[p].dir, kind) ==> |Group(pins, pins.items[p].signal, kind)| >= 1
  {
    forall kind | HasKind(pins.items[p].dir, kind)
      ensures |Group(pins, pins.items[p].signal, kind)| >= 1
    {
      assert p in Group(pins, pins.items[p].signal, kind);
    }
  }

  /** The signals keep their names and their places. */
  ghost predicate SameSigs(sigs: Pool<Sig>, sigs': Pool<Sig>) {
    && sigs'.list == sigs.list && sigs'.free == sigs.free && sigs'.items.Keys == sigs.items.Keys
    && forall s :: s in sigs.items ==> sigs'.items[s].name == sigs.items[s].name
  }

  lemma SameSigsOk(sigs: Pool<Sig>, sigs': Pool<Sig>)
    requires PoolOk(sigs) && SameSigs(sigs, sigs') && Sorted(SigNames(sigs.list, sigs.items))
    ensures PoolOk(sigs') && Sorted(SigNames(sigs'.list, sigs'.items))
  {
    assert forall s :: s in sigs'.items <==> s in sigs'.items.Keys;
    assert SigNames(sigs'.list, sigs'.items) == SigNames(sigs.list, sigs.items);
  }

  /** A change of one listed pin that keeps its name, owner and old name, and of signals' counts. */
  lemma SetPinKeepsListInv(st: State, p: Off, pin: Pin, sigs': Pool<Sig>, cells': map<Off, Value>)
    requires ListInv(st) && p in st.pins.list
    requires pin.name == st.pins.items[p].name && pin.owner == st.pins.items[p].owner
    requires pin.oldname == st.pins.items[p].oldname
    requires SameSigs(st.sigs, sigs') && cells'.Keys == st.cells.Keys
    ensures ListInv(st.(pins := st.pins.(items := st.pins.items[p := pin]), sigs := sigs', cells := cells'))
  {
    SameSigsOk(st.sigs, sigs');
    var items' := st.pins.items[p := pin];
    assert PinNames(st.pins.list, items') == PinNames(st.pins.list, st.pins.items);
    assert forall c :: c in cells' <==> c in cells'.Keys;
    assert forall s :: s in sigs'.items <==> s in sigs'.items.Keys;
  }

  lemma UnlinkKeepsInv(st: State, p: Off)
    requires Inv(st) && p in st.pins.list
    ensures CanUnlink(st, p) && Inv(UnlinkPin(st, p))
  {
    assert LinkOk(st.pins.items[p], st.sigs);
    UnlinkKeepsLinkInv(st, p);
    if st.pins.items[p].signal != 0 {
      var st' := UnlinkPin(st, p);
      SetPinKeepsListInv(st, p, st'.pins.items[p], st'.sigs, st'.cells);
    }
  }

  lemma LinkKeepsLinkInv(st: State, p: Off, s: Off)
    requires Inv(st) && p in st.pins.list && s in st.sigs.list && MayLink(st.pins.items[p], st.sigs.items[s])
    ensures var st' := LinkPin(st, p, s).0; LinkInv(st'.pins, st'.sigs, st'.cells)
  {
    var pin, sig := st.pins.items[p], st.sigs.items[s];
    assert LinkOk(pin, st.sigs);
    var st' := LinkPin(st, p, s).0;
    var pin' := st'.pins.items[p];
    CountAfterSet(st.pins, p, pin', s, sig);
    RelinkKeeps(st.pins, st.sigs, st.cells, p, pin', s, Recount(sig, pin.dir, 1));
    assert forall c :: c in st.cells ==> c in st'.cells;
  }

  lemma LinkKeepsListInv(st: State, p: Off, s: Off)
    requires Inv(st) && p in st.pins.list && s in st.sigs.list && MayLink(st.pins.items[p], st.sigs.items[s])
    ensures ListInv(LinkPin(st, p, s).0)
  {
    var pin, sig := st.pins.items[p], st.sigs.items[s];
    var cells' := if DrivesDefault(pin, sig) then st.cells[sig.data := pin.dummy] else st.cells;
    assert cells'.Keys == st.cells.Keys;
    SetPinKeepsListInv(st, p, pin.(target := Cell(sig.data), signal := s),
                       st.sigs.(items := st.sigs.items[s := Recount(sig, pin.dir, 1)]), cells');
  }

  lemma LinkKeepsInv(st: State, p: Off, s: Off)
    requires Inv(st) && p in st.pins.list && s in st.sigs.list
    ensures Inv(LinkPin(st, p, s).0)
  {
    if st.pins.items[p].signal != s && MayLink(st.pins.items[p], st.sigs.items[s]) {
      LinkKeepsLinkInv(st, p, s);
      LinkKeepsListInv(st, p, s);
    }
  }

  // -------------------------------------------------------------- freeing a pin

  /** Groups of a pool from which an unlinked pin has been detached. */
  lemma GroupAfterDetach(pins: Pool<Pin>, p: Off, pin: Pin, s: Off, kind: Kind)
    requires PoolOk(pins) && p in pins.list && pins.items[p].signal == 0 && s != 0
    ensures Group(Pool(Detach(pins, p).list, [p] + pins.free, pins.items[p := pin]), s, kind) == Group(pins, s, kind)
  {
    DetachMembers(pins, p);
  }

  /** Taking an unlinked pin off the list and putting it on the free list. */
  function Retire(st: State, p: Off, pin: Pin): State
    requires p in st.pins.list
  {
    st.(pins := Pool(Detach(st.pins, p).list, [p] + st.pins.free, st.pins.items[p := pin]))
  }

  /** Moving a structure from the list to the front of the free list. */
  lemma PoolAfterRetire<T>(p: Pool<T>, x: Off, item: T)
    requires PoolOk(p) && x in p.list
    ensures var p' := Pool(Detach(p, x).list, [x] + p.free, p.items[x := item]);
            && PoolOk(p')
            && (forall y :: y in p'.list <==> y in p.list && y != x)
            && (forall y :: y in p'.free <==> y in p.free || y == x)
  {
    DetachMembers(p, x);
  }

  lemma SortedAfterRemove(names: seq<string>, i: nat)
    requires Sorted(names) && i < |names|
    ensures Sorted(Remove(names, i))
  {
    var r := Remove(names, i);
    assert forall k :: 0 <= k < |r| ==> r[k] == names[if k < i then k else k + 1];
  }

  /** The names on a list do not depend on structures that are not on it. */
  lemma PinNamesFrame(list: seq<Off>, items: map<Off, Pin>, p: Off, pin: Pin)
    requires (forall x :: x in list ==> x in items) && p !in list
    ensures PinNames(list, items[p := pin]) == PinNames(list, items)
  {
  }

  lemma PinNamesRemove(list: seq<Off>, items: map<Off, Pin>, i: nat)
    requires (forall x :: x in list ==> x in items) && i < |list|
    ensures PinNames(Remove(list, i), items) == Remove(PinNames(list, items), i)
  {
  }

  lemma PinNamesInsert(list: seq<Off>, items: map<Off, Pin>, i: nat, p: Off)
    requires (forall x :: x in list ==> x in items) && i <= |list| && p in items
    ensures PinNames(Insert(list, i, p), items) == Insert(PinNames(list, items), i, items[p].name)
  {
  }

  lemma PinNamesAfterRetire(pins: Pool<Pin>, p: Off, pin: Pin)
    requires PoolOk(pins) && p in pins.list
    ensures forall x :: x in Detach(pins, p).list ==> x in pins.items[p := pin]
    ensures PinNames(Detach(pins, p).list, pins.items[p := pin])
         == Remove(PinNames(pins.list, pins.items), IndexOf(pins.list, p))
  {
    DetachMembers(pins, p);
    PinNamesFrame(Detach(pins, p).list, pins.items, p, pin);
    PinNamesRemove(pins.list, pins.items, IndexOf(pins.list, p));
  }

  lemma RetireKeepsListInv(st: State, p: Off, pin: Pin)
    requires ListInv(st) && p in st.pins.list && pin.oldname == st.pins.items[p].oldname
    ensures ListInv(Retire(st, p, pin))
  {
    PoolAfterRetire(st.pins, p, pin);
    RetireKeepsSorted(st.pins, p, pin);
    RetireKeepsRefs(st, p, pin);
  }

  lemma RetireKeepsRefs(st: State, p: Off, pin: Pin)
    requires PoolOk(st.pins) && p in st.pins.list && pin.oldname == st.pins.items[p].oldname
    requires OwnersOk(st.pins, st.comps) && OldRefs(st) && MemOk(st)
    ensures var st' := Retire(st, p, pin); OwnersOk(st'.pins, st'.comps) && OldRefs(st') && MemOk(st')
  {
    DetachMembers(st.pins, p);
  }

  lemma RetireKeepsSorted(pins: Pool<Pin>, p: Off, pin: Pin)
    requires PoolOk(pins) && p in pins.list && Sorted(PinNames(pins.list, pins.items))
    ensures (forall x :: x in Detach(pins, p).list ==> x in pins.items[p := pin])
            && Sorted(PinNames(Detach(pins, p).list, pins.items[p := pin]))
  {
    PinNamesAfterRetire(pins, p, pin);
    SortedAfterRemove(PinNames(pins.list, pins.items), IndexOf(pins.list, p));
  }

  lemma RetireKeepsLinkInv(st: State, p: Off, pin: Pin)
    requires Inv(st) && p in st.pins.list && st.pins.items[p].signal == 0
    requires pin.signal == 0 && pin.target == OwnDummy
    ensures var st' := Retire(st, p, pin); LinkInv(st'.pins, st'.sigs, st'.cells)
  {
    var st' := Retire(st, p, pin);
    PoolAfterRetire(st.pins, p, pin);
    forall s | s in st'.sigs.list && s in st'.sigs.items
      ensures CountOk(st'.pins, s, st'.sigs.items[s])
    {
      GroupAfterDetach(st.pins, p, pin, s, Reader);
      GroupAfterDetach(st.pins, p, pin, s, Writer);
      GroupAfterDetach(st.pins, p, pin, s, Bidir);
    }
  }

  lemma RetireKeepsInv(st: State, p: Off, pin: Pin)
    requires Inv(st) && p in st.pins.list && st.pins.items[p].signal == 0
    requires pin.signal == 0 && pin.target == OwnDummy && pin.oldname == st.pins.items[p].oldname
    ensures Inv(Retire(st, p, pin))
  {
    RetireKeepsListInv(st, p, pin);
    RetireKeepsLinkInv(st, p, pin);
  }

  /** Freeing an old name the pin refers to. */
  lemma FreeOldNameKeepsInv(st: State, o: Off)
    requires Inv(st) && o in st.olds
    ensures Inv(FreeOldName(st, o))
  {
  }

  /** Dropping a pin is unlinking it, retiring it and freeing its old name. */
  lemma DropPinSteps(st: State, p: Off)
    requires PoolOk(st.pins) && p in st.pins.list && CanUnlink(st, p)
    ensures var st1 := UnlinkPin(st, p);
            && st1.pins.list == st.pins.list && p in st1.pins.items
            && st1.pins.items[p].oldname == st.pins.items[p].oldname
            && DropPin(st, p) == var st2 := Retire(st1, p, Cleared(st1.pins.items[p]));
                                 if st.pins.items[p].oldname != 0 then FreeOldName(st2, st.pins.items[p].oldname) else st2
  {
  }

  lemma DropPinKeepsInv(st: State, p: Off)
    requires Inv(st) && p in st.pins.list
    ensures CanUnlink(st, p) && Inv(DropPin(st, p))
  {
    UnlinkKeepsInv(st, p);
    DropPinSteps(st, p);
    var st1 := UnlinkPin(st, p);
    RetireKeepsInv(st1, p, Cleared(st1.pins.items[p]));
    var st2 := Retire(st1, p, Cleared(st1.pins.items[p]));
    if st.pins.items[p].oldname != 0 {
      FreeOldNameKeepsInv(st2, st.pins.items[p].oldname);
    }
  }

  // ---------------------------------------------------------------- allocation

  /** `x` has been taken from the free list or from fresh memory and is on no list yet. */
  ghost predicate TakenFrom<T>(p: Pool<T>, m: Arena, p': Pool<T>, m': Arena, x: Off) {
    && 0 < m'.bot <= m'.top <= m.top && m'.bot == m.bot && m'.top <= x
    && p'.list == p.list && PoolOk(p')
    && x != 0 && x !in p.list && x !in p'.free && x in p'.items
    && p'.items == p.items[x := p'.items[x]]
    && (x in p.items <==> x in p.free)
    && (forall y :: y in p.free ==> y in p'.free || y == x)
    && (forall y :: y in p'.free ==> y in p.free)
  }

  lemma AllocFacts<T>(p: Pool<T>, m: Arena, size: nat, item: T)
    requires PoolOk(p) && 0 < m.bot <= m.top && size > 0
    requires forall x :: x in p.items ==> m.top <= x
    ensures var (p', m', x) := Alloc(p, m, size, item);
            && (x == 0 ==> p' == p && m' == m)
            && (x != 0 ==> TakenFrom(p, m, p', m', x) && p'.items[x] == item)
            && (x != 0 && p.free != [] ==> x == p.free[0])
            && (x != 0 && p.free == [] ==> x !in p.items)
  {
    if p.free != [] {
      assert p.free[0] in p.free;
      assert forall y :: y in p.free <==> y == p.free[0] || y in p.free[1..];
    } else {
      AllocDownExact(m, size);
      var (m', got) := AllocDown(m, size);
      if got.Some? {
        assert got.value < m.top;
      }
    }
  }

  /** The linked pins are the same ones, with the same links, kinds and targets. */
  ghost predicate SameLinked(pins: Pool<Pin>, pins': Pool<Pin>) {
    && (forall q :: q in pins.list && q in pins.items && pins.items[q].signal != 0 ==>
          q in pins'.list && q in pins'.items && pins'.items[q].signal == pins.items[q].signal
          && pins'.items[q].dir == pins.items[q].dir)
    && (forall q :: q in pins'.list && q in pins'.items && pins'.items[q].signal != 0 ==>
          q in pins.list && q in pins.items && pins.items[q].signal != 0)
  }

  lemma CountsFrame(pins: Pool<Pin>, pins': Pool<Pin>, sigs: Pool<Sig>)
    requires CountsOk(pins, sigs) && SameLinked(pins, pins') && 0 !in sigs.list
    ensures CountsOk(pins', sigs)
  {
    forall s | s in sigs.list && s in sigs.items
      ensures CountOk(pins', s, sigs.items[s])
    {
      assert Group(pins', s, Reader) == Group(pins, s, Reader);
      assert Group(pins', s, Writer) == Group(pins, s, Writer);
      assert Group(pins', s, Bidir) == Group(pins, s, Bidir);
    }
  }

  /** Putting a structure that is on no list on the list. */
  lemma PoolAfterInsert<T>(p: Pool<T>, i: nat, x: Off)
    requires PoolOk(p) && i <= |p.list| && x in p.items && x != 0 && x !in p.list && x !in p.free
    ensures PoolOk(p.(list := Insert(p.list, i, x)))
  {
    InsertMembers(p.list, i, x);
  }

  /** Putting a structure that is on no list on the free list. */
  lemma PoolAfterRelease<T>(p: Pool<T>, x: Off, item: T)
    requires PoolOk(p) && x != 0 && x !in p.list && x !in p.free
    ensures PoolOk(Pool(p.list, [x] + p.free, p.items[x := item]))
  {
  }

  // ----------------------------------------------------------------- new pins

  /** The state in which an unlinked structure `p` has been put on the pin list. */
  function Listed(st: State, pool: Pool<Pin>, m: Arena, i: nat, p: Off, pin: Pin): State
    requires i <= |pool.list|
  {
    st.(pins := Pool(Insert(pool.list, i, p), pool.free, pool.items[p := pin]), arena := m)
  }

  lemma ListPinKeepsPool(st: State, pool: Pool<Pin>, m: Arena, p: Off, pin: Pin)
    requires ListInv(st) && TakenFrom(st.pins, st.arena, pool, m, p)
    ensures var names := PinNames(st.pins.list, st.pins.items);
            var pins := Pool(Insert(pool.list, Place(names, pin.name), p), pool.free, pool.items[p := pin]);
            && pins.items == st.pins.items[p := pin]
            && PoolOk(pins) && Accounted(pins) && Sorted(PinNames(pins.list, pins.items))
            && (forall q :: q in pins.list <==> q in st.pins.list || q == p)
  {
    var i := Place(PinNames(st.pins.list, st.pins.items), pin.name);
    InsertTaken(st.pins, st.arena, pool, m, i, p, pin);
    InsertedNames(st.pins, p, pin);
  }

  /** A structure that was taken from memory joins the list at some place. */
  lemma InsertTaken(pins: Pool<Pin>, m: Arena, pool: Pool<Pin>, m': Arena, i: nat, p: Off, pin: Pin)
    requires PoolOk(pins) && Accounted(pins) && TakenFrom(pins, m, pool, m', p) && i <= |pins.list|
    ensures var pins' := Pool(Insert(pool.list, i, p), pool.free, pool.items[p := pin]);
            && pins'.items == pins.items[p := pin] && PoolOk(pins') && Accounted(pins')
            && (forall q :: q in pins'.list <==> q in pins.list || q == p)
  {
    InsertMembers(pool.list, i, p);
    PoolAfterInsert(pool, i, p);
  }

  lemma InsertedNames(pins: Pool<Pin>, p: Off, pin: Pin)
    requires PoolOk(pins) && p !in pins.list && Sorted(PinNames(pins.list, pins.items))
    ensures var names := PinNames(pins.list, pins.items);
            var list := Insert(pins.list, Place(names, pin.name), p);
            (forall q :: q in list ==> q in pins.items[p := pin]) && Sorted(PinNames(list, pins.items[p := pin]))
  {
    var names := PinNames(pins.list, pins.items);
    var i := Place(names, pin.name);
    InsertMembers(pins.list, i, p);
    PinNamesFrame(pins.list, pins.items, p, pin);
    PinNamesInsert(pins.list, pins.items[p := pin], i, p);
    InsertKeepsSorted(names, pin.name);
  }

  lemma ListPinKeepsListInv(st: State, pool: Pool<Pin>, m: Arena, p: Off, pin: Pin)
    requires ListInv(st) && TakenFrom(st.pins, st.arena, pool, m, p) && pin.owner in st.comps.list
    requires pin.oldname != 0 ==> pin.oldname in st.olds
    ensures ListInv(Listed(st, pool, m, Place(PinNames(st.pins.list, st.pins.items), pin.name), p, pin))
  {
    ListPinKeepsPool(st, pool, m, p, pin);
  }

  lemma ListPinKeepsLinkInv(st: State, pool: Pool<Pin>, m: Arena, i: nat, p: Off, pin: Pin)
    requires Inv(st) && TakenFrom(st.pins, st.arena, pool, m, p) && i <= |pool.list|
    requires pin.signal == 0 && pin.target == OwnDummy && !(pin.typ == PortHandle && pin.dir == Io)
    ensures var st' := Listed(st, pool, m, i, p, pin); LinkInv(st'.pins, st'.sigs, st'.cells)
  {
    var st' := Listed(st, pool, m, i, p, pin);
    InsertMembers(pool.list, i, p);
    assert st'.pins.items == st.pins.items[p := pin];
    CountsFrame(st.pins, st'.pins, st.sigs);
    forall q | q in st'.pins.list && q in st'.pins.items
      ensures LinkOk(st'.pins.items[q], st'.sigs)
    {
      assert q != p ==> LinkOk(st.pins.items[q], st.sigs);
    }
  }

  /** The state in which an unlinked structure `p` that is on no list has been put on the free list. */
  function Shelved(st: State, pool: Pool<Pin>, m: Arena, p: Off, pin: Pin): State {
    st.(pins := Pool(pool.list, [p] + pool.free, pool.items[p := pin]), arena := m)
  }

  lemma ShelveKeepsListInv(st: State, pool: Pool<Pin>, m: Arena, p: Off, pin: Pin)
    requires ListInv(st) && TakenFrom(st.pins, st.arena, pool, m, p) && (pin.oldname != 0 ==> pin.oldname in st.olds)
    ensures ListInv(Shelved(st, pool, m, p, pin))
  {
    PoolAfterRelease(pool, p, pin);
    assert pool.items[p := pin] == st.pins.items[p := pin];
    PinNamesFrame(st.pins.list, st.pins.items, p, pin);
  }

  lemma ShelveKeepsLinkInv(pins: Pool<Pin>, pins': Pool<Pin>, sigs: Pool<Sig>, cells: map<Off, Value>, p: Off, pin: Pin)
    requires LinkInv(pins, sigs, cells) && 0 !in sigs.list
    requires pins'.list == pins.list && p !in pins.list && pins'.items == pins.items[p := pin]
    requires forall q :: q in pins'.free ==> q in pins.free || q == p
    requires pin.signal == 0 && pin.target == OwnDummy
    ensures LinkInv(pins', sigs, cells)
  {
    CountsFrame(pins, pins', sigs);
  }

  lemma ShelveKeepsInv(st: State, pool: Pool<Pin>, m: Arena, p: Off, pin: Pin)
    requires Inv(st) && TakenFrom(st.pins, st.arena, pool, m, p)
    requires pin.signal == 0 && pin.target == OwnDummy && (pin.oldname != 0 ==> pin.oldname in st.olds)
    ensures Inv(Shelved(st, pool, m, p, pin))
  {
    ShelveKeepsListInv(st, pool, m, p, pin);
    ShelvedPins(st, pool, m, p, pin);
    ShelveKeepsLinkInv(st.pins, Shelved(st, pool, m, p, pin).pins, st.sigs, st.cells, p, pin);
  }

  lemma ShelvedPins(st: State, pool: Pool<Pin>, m: Arena, p: Off, pin: Pin)
    requires TakenFrom(st.pins, st.arena, pool, m, p)
    ensures var pins' := Shelved(st, pool, m, p, pin).pins;
            && pins'.items == st.pins.items[p := pin] && pins'.list == st.pins.list
            && forall q :: q in pins'.free ==> q in st.pins.free || q == p
  {
  }

  /** A refused new pin goes to the free list, a stale old name of it to theirs. */
  lemma PinNewRefused(st: State, pool: Pool<Pin>, m: Arena, p: Off, pin: Pin)
    requires Inv(st) && TakenFrom(st.pins, st.arena, pool, m, p) && pin.signal == 0
    requires pin.oldname != 0 ==> pin.oldname in st.olds
    ensures var st2 := st.(pins := pool.(items := pool.items[p := pin]), arena := m);
            && CanUnlink(st2, p)
            && FreePin(st2, p) == var st3 := Shelved(st, pool, m, p, Cleared(pin));
                                  if pin.oldname != 0 then FreeOldName(st3, pin.oldname) else st3
  {
    assert pool.items[p := pin][p := Cleared(pin)] == pool.items[p := Cleared(pin)];
  }

  lemma PinNewRefusedKeepsInv(st: State, pool: Pool<Pin>, m: Arena, p: Off, pin: Pin)
    requires Inv(st) && TakenFrom(st.pins, st.arena, pool, m, p) && pin.signal == 0
    requires pin.oldname != 0 ==> pin.oldname in st.olds
    ensures var st2 := st.(pins := pool.(items := pool.items[p := pin]), arena := m);
            CanUnlink(st2, p) && Inv(FreePin(st2, p))
  {
    PinNewRefused(st, pool, m, p, pin);
    ShelveKeepsInv(st, pool, m, p, Cleared(pin));
    if pin.oldname != 0 {
      FreeOldNameKeepsInv(Shelved(st, pool, m, p, Cleared(pin)), pin.oldname);
    }
  }

  /** The structure a new pin gets. */
  lemma AllocPinFacts(st: State)
    requires Inv(st)
    ensures var (st1, p) := AllocPin(st);
            && (p == 0 ==> st1 == st)
            && (p != 0 ==>
                  && TakenFrom(st.pins, st.arena, st1.pins, st1.arena, p)
                  && st1 == st.(pins := st1.pins, arena := st1.arena)
                  && st1.pins.items[p] == CLEARED_PIN.(oldname := st1.pins.items[p].oldname)
                  && (st1.pins.items[p].oldname != 0 ==> st1.pins.items[p].oldname in st.olds)
                  && (p in st.pins.items ==> st1.pins.items[p].oldname == st.pins.items[p].oldname)
                  && (p !in st.pins.items ==> st1.pins.items[p].oldname == 0))
  {
    var kept := if st.pins.free != [] then st.pins.items[st.pins.free[0]].oldname else 0;
    assert st.pins.free != [] ==> st.pins.free[0] in st.pins.free;
    AllocFacts(st.pins, st.arena, PIN_SIZE, CLEARED_PIN.(oldname := kept));
  }

  lemma FinishPinKeepsInv(st: State, st1: State, p: Off, pin: Pin)
    requires Inv(st) && TakenFrom(st.pins, st.arena, st1.pins, st1.arena, p)
    requires st1 == st.(pins := st1.pins, arena := st1.arena)
    requires pin.signal == 0 && pin.target == OwnDummy && !(pin.typ == PortHandle && pin.dir == Io)
    requires pin.owner in st.comps.list && (pin.oldname != 0 ==> pin.oldname in st.olds)
    ensures Inv(FinishPin(st, st1, p, pin).0)
  {
    var names := PinNames(st.pins.list, st.pins.items);
    if pin.name in names {
      PinNewRefusedKeepsInv(st, st1.pins, st1.arena, p, pin);
    } else {
      ListPinKeepsListInv(st, st1.pins, st1.arena, p, pin);
      ListPinKeepsLinkInv(st, st1.pins, st1.arena, Place(names, pin.name), p, pin);
    }
  }

  lemma PinNewKeepsInv(st: State, name: string, typ: Type, dir: Dir, compId: int, ptrOk: bool)
    requires Inv(st) && Unlinkable(st)
    ensures Inv(PinNew(st, name, typ, dir, compId, ptrOk).0)
  {
    var r := PinNew(st, name, typ, dir, compId, ptrOk);
    var c := FindComp(st.comps.list, st.comps.items, compId);
    var (st1, p) := AllocPin(st);
    AllocPinFacts(st);
    if (typ == PortHandle && dir == Io) || |name| > HAL_NAME_LEN || st.lockLoad
       || c == 0 || !ptrOk || st.comps.items[c].ready || p == 0 {
      assert r.0 == st;
    } else {
      var pin := st1.pins.items[p].(name := name, owner := c, typ := typ, dir := dir);
      assert r == FinishPin(st, st1, p, pin);
      FinishPinKeepsInv(st, st1, p, pin);
    }
  }

  // ------------------------------------------------------------------- aliases

  lemma AllocOldNameKeepsInv(st: State)
    requires Inv(st)
    ensures var (st', o) := AllocOldName(st);
            && Inv(st') && (o == 0 ==> st' == st) && (o != 0 ==> o in st'.olds)
            && st' == st.(olds := st'.olds, oldFree := st'.oldFree, arena := st'.arena)
            && (st.oldFree != 0 ==> o == st.oldFree)
  {
    if st.oldFree == 0 {
      AllocDownExact(st.arena, OLDNAME_SIZE);
    }
  }

  /** What renaming does to the pin and to the saved names; it needs no new memory. */
  lemma RenameFacts(st: State, p: Off, alias: Option<string>)
    requires OldRefs(st) && p in st.pins.items && st.oldFree != 0
    ensures var st', pin := Rename(st, p, alias), st.pins.items[p];
            && p in st'.pins.items
            && var pin' := st'.pins.items[p];
            && pin' == pin.(name := pin'.name, oldname := pin'.oldname)
            && st' == st.(pins := st.pins.(items := st.pins.items[p := pin']), olds := st'.olds, oldFree := st'.oldFree)
            && st'.olds.Keys == st.olds.Keys
            && OldRefs(st')
  {
    var st', pin := Rename(st, p, alias), st.pins.items[p];
    if alias.None? && pin.oldname == 0 {
      assert st.pins.items[p := pin] == st.pins.items;
    }
    assert forall o :: o in st'.olds <==> o in st'.olds.Keys;
  }

  /** A listed pin moves to where its new name belongs. */
  lemma MovePool(pins: Pool<Pin>, p: Off, pin: Pin)
    requires PoolOk(pins) && Accounted(pins) && p in pins.list && Sorted(PinNames(pins.list, pins.items))
    ensures var rest := Detach(pins, p).list;
            && (forall x :: x in rest ==> x in pins.items)
            && var pins' := Pool(Insert(rest, Place(PinNames(rest, pins.items), pin.name), p), pins.free, pins.items[p := pin]);
            && PoolOk(pins') && Accounted(pins') && Sorted(PinNames(pins'.list, pins'.items))
            && (forall q :: q in pins'.list <==> q in pins.list)
  {
    DetachMembers(pins, p);
    var rest := Detach(pins, p);
    var names := PinNames(rest.list, pins.items);
    var i := Place(names, pin.name);
    PinNamesRemove(pins.list, pins.items, IndexOf(pins.list, p));
    SortedAfterRemove(PinNames(pins.list, pins.items), IndexOf(pins.list, p));
    InsertMembers(rest.list, i, p);
    PoolAfterInsert(Pool(rest.list, pins.free, pins.items[p := pin]), i, p);
    PinNamesFrame(rest.list, pins.items, p, pin);
    PinNamesInsert(rest.list, pins.items[p := pin], i, p);
    InsertKeepsSorted(names, pin.name);
  }

  lemma MoveKeepsLinkInv(pins: Pool<Pin>, pins': Pool<Pin>, sigs: Pool<Sig>, cells: map<Off, Value>, p: Off)
    requires PoolOk(pins) && PoolOk(sigs) && LinkInv(pins, sigs, cells) && p in pins.list && p in pins'.items
    requires var pin, pin' := pins.items[p], pins'.items[p]; pin' == pin.(name := pin'.name, oldname := pin'.oldname)
    requires pins'.items == pins.items[p := pins'.items[p]] && pins'.free == pins.free
    requires forall q :: q in pins'.list <==> q in pins.list
    ensures LinkInv(pins', sigs, cells)
  {
    CountsFrame(pins, pins', sigs);
    forall q | q in pins'.list && q in pins'.items
      ensures LinkOk(pins'.items[q], sigs)
    {
      assert LinkOk(pins.items[q], sigs);
    }
  }

  /** `st'` differs from `st` in the name, the old name and the place of pin `p`, and in saved names. */
  ghost predicate Moved(st: State, st': State, p: Off)
    requires PoolOk(st.pins) && p in st.pins.list
  {
    && p in st'.pins.items
    && var pin, pin', rest := st.pins.items[p], st'.pins.items[p], Detach(st.pins, p).list;
    && pin' == pin.(name := pin'.name, oldname := pin'.oldname)
    && (forall x :: x in rest ==> x in st.pins.items)
    && st'.pins == Pool(Insert(rest, Place(PinNames(rest, st.pins.items), pin'.name), p), st.pins.free,
                        st.pins.items[p := pin'])
    && st' == st.(pins := st'.pins, olds := st'.olds, oldFree := st'.oldFree)
    && st'.olds.Keys == st.olds.Keys && OldRefs(st')
  }

  lemma RealiasMoves(st: State, p: Off, alias: Option<string>)
    requires ListInv(st) && p in st.pins.list && st.oldFree != 0
    ensures Moved(st, Realias(st, p, alias), p)
  {
    RealiasMovesPin(st, p, alias);
  }

  /** Renaming in the list without the pin, and putting it back. */
  lemma RealiasMovesPin(st: State, p: Off, alias: Option<string>)
    requires PoolOk(st.pins) && OldRefs(st) && p in st.pins.list && st.oldFree != 0
    ensures Moved(st, Realias(st, p, alias), p)
  {
    var without := st.(pins := Detach(st.pins, p));
    DetachMembers(st.pins, p);
    RenameFacts(without, p, alias);
    var st1 := Rename(without, p, alias);
    assert OldRefs(Realias(st, p, alias)) by {
      assert OldRefs(st1);
    }
  }

  lemma MovedKeepsListInv(st: State, st': State, p: Off)
    requires ListInv(st) && p in st.pins.list && Moved(st, st', p)
    ensures ListInv(st') && forall q :: q in st'.pins.list <==> q in st.pins.list
  {
    MovePool(st.pins, p, st'.pins.items[p]);
    MovedMemory(st, st', p);
    MovedOwners(st.pins, st'.pins, st.comps, p);
  }

  lemma MovedMemory(st: State, st': State, p: Off)
    requires PoolOk(st.pins) && MemOk(st) && p in st.pins.list && Moved(st, st', p)
    ensures MemOk(st')
  {
    assert forall o :: o in st'.olds <==> o in st'.olds.Keys;
  }

  lemma MovedOwners(pins: Pool<Pin>, pins': Pool<Pin>, comps: Pool<Comp>, p: Off)
    requires PoolOk(pins) && OwnersOk(pins, comps) && p in pins.list && p in pins'.items
    requires pins'.items == pins.items[p := pins'.items[p]] && pins'.items[p].owner == pins.items[p].owner
    requires forall q :: q in pins'.list <==> q in pins.list
    ensures OwnersOk(pins', comps)
  {
  }

  lemma MovedKeepsInv(st: State, st': State, p: Off)
    requires Inv(st) && p in st.pins.list && Moved(st, st', p)
    ensures Inv(st')
  {
    MovedKeepsListInv(st, st', p);
    MoveKeepsLinkInv(st.pins, st'.pins, st.sigs, st.cells, p);
  }

  lemma RealiasKeepsInv(st: State, p: Off, alias: Option<string>)
    requires Inv(st) && p in st.pins.list && st.oldFree != 0
    ensures Inv(Realias(st, p, alias))
  {
    RealiasMoves(st, p, alias);
    MovedKeepsInv(st, Realias(st, p, alias), p);
  }

  lemma PinAliasKeepsInv(st: State, pinName: string, alias: Option<string>)
    requires Inv(st)
    ensures Inv(PinAlias(st, pinName, alias).0)
  {
    var r := PinAlias(st, pinName, alias);
    var (st1, o) := AllocOldName(st);
    AllocOldNameKeepsInv(st);
    if st.lockConfig || (alias.Some? && |alias.value| > HAL_NAME_LEN) || o == 0
       || (alias.Some? && FindPin(st.pins.list, st.pins.items, st.olds, alias.value) != 0) {
      assert r.0 == st;
    } else {
      var st2 := FreeOldName(st1, o);
      FreeOldNameKeepsInv(st1, o);
      var p := FindPin(st2.pins.list, st2.pins.items, st2.olds, pinName);
      if p == 0 {
        assert r.0 == st2;
      } else {
        assert r.0 == Realias(st2, p, alias);
        RealiasKeepsInv(st2, p, alias);
      }
    }
  }
}
