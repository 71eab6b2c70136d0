/**
 What the calls on signals and links do with their arguments, and exactly when they succeed
 (src/hal/hal_lib.c, `hal_link`, `hal_unlink`, `hal_signal_new`, `hal_signal_delete`).  Who may join a
 signal is said by the pins that are linked to it.
 */
module HalLinks {
  import opened Lists
  import opened Names
  import opened Shmem
  import opened Hal
  import opened HalInv
  import opened HalOps
  import opened HalResults
  import opened HalAlias

  // ------------------------------------------------------------------- lookups

  /** The pin bears the name, or was created with it. */
  predicate Answers(st: State, q: Off, name: string) {
    q in st.pins.items && (st.pins.items[q].name == name || OriginalName(st, q) == name)
  }

  /** The first pin of the list that answers to a name. */
  ghost predicate FirstPin(st: State, name: string, p: Off) {
    exists i :: && 0 <= i < |st.pins.list| && st.pins.list[i] == p && Answers(st, p, name)
                && forall j :: 0 <= j < i ==> !Answers(st, st.pins.list[j], name)
  }

  lemma {:induction false} PinFound(st: State, name: string, k: nat)
    requires ListsOk(st) && OldRefs(st) && k <= |st.pins.list|
    requires forall j :: 0 <= j < k ==> !Answers(st, st.pins.list[j], name)
    ensures var p := FindPin(st.pins.list[k..], st.pins.items, st.olds, name);
            if p == 0 then forall q :: q in st.pins.list ==> !Answers(st, q, name) else FirstPin(st, name, p)
    decreases |st.pins.list| - k
  {
    if k < |st.pins.list| {
      var q := st.pins.list[k];
      assert AnswersTo(st.pins.items[q], st.olds, name) <==> Answers(st, q, name);
      assert st.pins.list[k..][1..] == st.pins.list[k + 1..];
      if !Answers(st, q, name) {
        PinFound(st, name, k + 1);
      }
    }
  }

  /** A pin is found if and only if one answers to the name, and then it is the first that does. */
  lemma PinLookup(st: State, name: string)
    requires ListsOk(st) && OldRefs(st)
    ensures var p := FindPin(st.pins.list, st.pins.items, st.olds, name);
            if p == 0 then !PinThere(st, name) else p in st.pins.list && FirstPin(st, name, p) && PinThere(st, name)
  {
    assert st.pins.list[0..] == st.pins.list;
    PinFound(st, name, 0);
  }

  ghost predicate PinThere(st: State, name: string) { exists q :: q in st.pins.list && Answers(st, q, name) }

  predicate SigNamed(st: State, s: Off, name: string) { s in st.sigs.items && st.sigs.items[s].name == name }

  lemma {:induction false} SigFound(list: seq<Off>, items: map<Off, Sig>, name: string)
    requires (forall x :: x in list ==> x in items) && 0 !in list
    ensures FindSig(list, items, name) != 0 <==> exists s :: s in list && items[s].name == name
  {
    if list != [] {
      SigFound(list[1..], items, name);
      assert list == [list[0]] + list[1..];
    }
  }

  /** A signal of that name is on the list. */
  ghost predicate SigThere(st: State, name: string) { exists s :: s in st.sigs.list && SigNamed(st, s, name) }

  lemma SigLookup(st: State, name: string)
    requires ListsOk(st)
    ensures var s := FindSig(st.sigs.list, st.sigs.items, name);
            if s == 0 then !SigThere(st, name) else s in st.sigs.list && SigNamed(st, s, name)
  {
    SigFound(st.sigs.list, st.sigs.items, name);
    var s := FindSig(st.sigs.list, st.sigs.items, name);
    if s == 0 {
      assert forall t :: t in st.sigs.list && SigNamed(st, t, name) ==> false;
    }
  }

  // -------------------------------------------------------------------- linking

  /**
   Who may join a signal: an output if no output and no bidirectional pin is on it, a bidirectional
   pin if no output is, an input always, but on a port only if no other input is.
   */
  ghost predicate KindJoins(st: State, typ: Type, dir: Dir, s: Off) {
    match dir
    case Out => LinkedPins(st, s, {Out, Io}) == {}
    case Io => LinkedPins(st, s, {Out}) == {}
    case In => typ == PortHandle ==> LinkedPins(st, s, {In}) == {}
  }

  ghost predicate MayJoin(st: State, p: Off, s: Off)
    requires p in st.pins.items
  {
    KindJoins(st, st.pins.items[p].typ, st.pins.items[p].dir, s)
  }

  lemma CountsSay(st: State, s: Off)
    requires Inv(st) && s in st.sigs.list
    ensures var sig := st.sigs.items[s];
            && (sig.readers > 0 <==> LinkedPins(st, s, {In, Io}) != {}) && sig.readers >= 0
            && (sig.writers > 0 <==> LinkedPins(st, s, {Out}) != {}) && sig.writers >= 0
            && (sig.bidirs > 0 <==> LinkedPins(st, s, {Io}) != {}) && sig.bidirs >= 0
  {
    InvMeansConsistent(st, s);
  }

  lemma LinkedUnion(st: State, s: Off)
    ensures LinkedPins(st, s, {Out, Io}) == LinkedPins(st, s, {Out}) + LinkedPins(st, s, {Io})
    ensures LinkedPins(st, s, {In, Io}) == LinkedPins(st, s, {In}) + LinkedPins(st, s, {Io})
  {
  }

  /** What the counts of a signal say about who may join it. */
  predicate CountsAdmit(sig: Sig, typ: Type, dir: Dir) {
    match dir
    case Out => sig.writers <= 0 && sig.bidirs <= 0
    case Io => sig.writers <= 0
    case In => typ == PortHandle ==> sig.readers <= 0
  }

  lemma CountsAdmitIff(st: State, typ: Type, dir: Dir, s: Off)
    requires Inv(st) && s in st.sigs.list && st.sigs.items[s].typ == typ
    ensures CountsAdmit(st.sigs.items[s], typ, dir) <==> KindJoins(st, typ, dir, s)
  {
    CountsSay(st, s);
    LinkedUnion(st, s);
    assert RulesOk(st.sigs.items[s]);
  }

  lemma MayLinkIff(pin: Pin, sig: Sig)
    requires pin.signal == 0 && !(pin.typ == PortHandle && pin.dir == Io)
    ensures MayLink(pin, sig) <==> pin.typ == sig.typ && CountsAdmit(sig, pin.typ, pin.dir)
  {
  }

  /** An unlinked pin is linked if and only if the types agree and it may join. */
  lemma LinkOkIff(st: State, p: Off, s: Off)
    requires Inv(st) && p in st.pins.list && s in st.sigs.list && st.pins.items[p].signal == 0
    ensures LinkPin(st, p, s).1.Ok? <==> st.pins.items[p].typ == st.sigs.items[s].typ && MayJoin(st, p, s)
  {
    var pin, sig := st.pins.items[p], st.sigs.items[s];
    assert LinkOk(pin, st.sigs) && s != 0;
    MayLinkIff(pin, sig);
    if pin.typ == sig.typ {
      CountsAdmitIff(st, pin.typ, pin.dir, s);
    }
  }

  /** The pin's default goes to the signal: nobody drives the signal, and an input is the first to read it. */
  ghost predicate Drives(st: State, p: Off, s: Off)
    requires p in st.pins.items
  {
    && st.pins.items[p].typ != PortHandle && LinkedPins(st, s, {Out, Io}) == {}
    && (st.pins.items[p].dir == In ==> LinkedPins(st, s, {In}) == {})
  }

  lemma DrivesIff(st: State, p: Off, s: Off)
    requires Inv(st) && p in st.pins.list && s in st.sigs.list
    ensures DrivesDefault(st.pins.items[p], st.sigs.items[s]) <==> Drives(st, p, s)
  {
    CountsSay(st, s);
    LinkedUnion(st, s);
  }

  /** Only the link of this pin has changed; `s` is its signal now, or 0. */
  ghost predicate Relinked(st: State, st': State, p: Off, s: Off) {
    && p in st.pins.items && p in st'.pins.items
    && st'.pins == st.pins.(items := st.pins.items[p := st'.pins.items[p]])
    && st'.pins.items[p].signal == s
    && SamePin(st.pins.items[p], st'.pins.items[p])
    && st' == st.(pins := st'.pins, sigs := st'.sigs, cells := st'.cells)
    && st'.sigs.list == st.sigs.list && st'.sigs.free == st.sigs.free && st'.sigs.items.Keys == st.sigs.items.Keys
    && (forall t :: t in st.sigs.items && t in st'.sigs.items ==> SameSig(st.sigs.items[t], st'.sigs.items[t]))
  }

  /** The same pin, but for its link and its value while unlinked. */
  predicate SamePin(pin: Pin, pin': Pin) {
    pin' == pin.(signal := pin'.signal, target := pin'.target, dummy := pin'.dummy)
  }

  /** The same signal, but for its counts. */
  predicate SameSig(sig: Sig, sig': Sig) {
    sig' == sig.(readers := sig'.readers, writers := sig'.writers, bidirs := sig'.bidirs)
  }

  /** So the pins on a signal are those before, with or without this one. */
  lemma RelinkedSets(st: State, st': State, p: Off, s: Off, t: Off, dirs: set<Dir>)
    requires Relinked(st, st', p, s) && p in st.pins.list
    ensures LinkedPins(st', t, dirs) == (LinkedPins(st, t, dirs) - {p})
                                      + if t == s && st.pins.items[p].dir in dirs then {p} else {}
  {
  }

  lemma LinkRelinks(st: State, p: Off, s: Off)
    requires Inv(st) && p in st.pins.list && s in st.sigs.list && st.pins.items[p].signal == 0 && LinkPin(st, p, s).1.Ok?
    ensures Relinked(st, LinkPin(st, p, s).0, p, s)
  {
  }

  /**
   What a link does: the pin is on the signal; the counts are those of the pins linked; and the only
   value that may change is the signal's, to what the pin read before, if the pin drives it.
   */
  ghost predicate LinkDone(st: State, st': State, p: Off, s: Off) {
    && Relinked(st, st', p, s) && Inv(st') && SignalConsistent(st', s) && s in st.sigs.items
    && st'.pins.items[p].dummy == st.pins.items[p].dummy
    && st'.cells == if Drives(st, p, s) then st.cells[st.sigs.items[s].data := Reads(st, p)] else st.cells
  }

  lemma LinkEffect(st: State, p: Off, s: Off)
    requires Inv(st) && p in st.pins.list && s in st.sigs.list && st.pins.items[p].signal == 0 && LinkPin(st, p, s).1.Ok?
    ensures LinkDone(st, LinkPin(st, p, s).0, p, s)
  {
    LinkRelinks(st, p, s);
    LinkKeepsInv(st, p, s);
    InvMeansConsistent(LinkPin(st, p, s).0, s);
    DrivesIff(st, p, s);
    assert LinkOk(st.pins.items[p], st.sigs);
  }

  /** The pin and the signal that a call names. */
  ghost predicate Named(st: State, pinName: string, sigName: string, p: Off, s: Off) {
    FirstPin(st, pinName, p) && s in st.sigs.list && SigNamed(st, s, sigName)
  }

  /** The pin is on the signal already, or on none and may join. */
  ghost predicate LinkAllowed(st: State, p: Off, s: Off)
    requires p in st.pins.items && s in st.sigs.items
  {
    || st.pins.items[p].signal == s
    || (st.pins.items[p].signal == 0 && st.pins.items[p].typ == st.sigs.items[s].typ && MayJoin(st, p, s))
  }

  ghost predicate LinkOutcome(st: State, p: Off, s: Off, st': State, r: Result) {
    && p in st.pins.items && s in st.sigs.items
    && (r.Ok? <==> LinkAllowed(st, p, s))
    && (r.Ok? ==> if st.pins.items[p].signal == s then st' == st else LinkDone(st, st', p, s))
    && (r.Err? ==> st' == st && r.e == EINVAL)
  }

  lemma LinkFound(st: State, p: Off, s: Off)
    requires Inv(st) && p in st.pins.list && s in st.sigs.list
    ensures LinkOutcome(st, p, s, LinkPin(st, p, s).0, LinkPin(st, p, s).1)
  {
    if st.pins.items[p].signal == 0 {
      LinkOkIff(st, p, s);
      if LinkPin(st, p, s).1.Ok? {
        LinkEffect(st, p, s);
      }
    }
  }

  /** Both names are those of something on the lists. */
  ghost predicate BothThere(st: State, pinName: string, sigName: string) {
    SigThere(st, sigName) && PinThere(st, pinName)
  }

  /**
   `hal_link` by names: refused while locked, and if one of the two is not there; then it goes by what
   is on the signal, and a pin that is on it already stays as it is.
   */
  lemma LinkExact(st: State, pinName: string, sigName: string)
    requires Inv(st)
    ensures var (st', r) := Link(st, pinName, sigName);
            && (r == Err(EPERM) <==> st.lockConfig) && (r.Err? ==> st' == st)
            && (!st.lockConfig && !BothThere(st, pinName, sigName) ==> r == Err(EINVAL))
            && (!st.lockConfig && BothThere(st, pinName, sigName) ==>
                  exists p, s :: Named(st, pinName, sigName, p, s) && LinkOutcome(st, p, s, st', r))
  {
    PinLookup(st, pinName);
    SigLookup(st, sigName);
    var p, s := FindPin(st.pins.list, st.pins.items, st.olds, pinName), FindSig(st.sigs.list, st.sigs.items, sigName);
    if !st.lockConfig && p != 0 && s != 0 {
      LinkFound(st, p, s);
      assert Named(st, pinName, sigName, p, s);
    }
  }

  // ------------------------------------------------------------------ unlinking

  /** The pin is on no signal, it goes on reading what it read unless it is a port, and no value has changed. */
  ghost predicate UnlinkDone(st: State, st': State, p: Off) {
    && Relinked(st, st', p, 0) && Inv(st') && st'.cells == st.cells
    && (st.pins.items[p].typ != PortHandle || st.pins.items[p].signal == 0 ==> Reads(st', p) == Reads(st, p))
    && (st.pins.items[p].typ == PortHandle && st.pins.items[p].signal != 0 ==> Reads(st', p) == 0)
  }

  lemma UnlinkRelinks(st: State, p: Off)
    requires Inv(st) && p in st.pins.list && CanUnlink(st, p)
    ensures Relinked(st, UnlinkPin(st, p), p, 0)
  {
    assert st.pins.items[p := st.pins.items[p]] == st.pins.items;
  }

  lemma UnlinkEffect(st: State, p: Off)
    requires Inv(st) && p in st.pins.list && CanUnlink(st, p)
    ensures UnlinkDone(st, UnlinkPin(st, p), p)
  {
    UnlinkRelinks(st, p);
    UnlinkKeepsInv(st, p);
    UnlinkKeepsValues(st, p, p);
  }

  /** `hal_unlink` by name. */
  lemma UnlinkExact(st: State, pinName: string)
    requires Inv(st) && Unlinkable(st)
    ensures var (st', r) := Unlink(st, pinName);
            && (r.Ok? <==> !st.lockConfig && PinThere(st, pinName))
            && (r == Err(EPERM) <==> st.lockConfig) && (r.Err? ==> st' == st)
            && (r.Ok? ==> exists p :: FirstPin(st, pinName, p) && UnlinkDone(st, st', p))
  {
    PinLookup(st, pinName);
    var p := FindPin(st.pins.list, st.pins.items, st.olds, pinName);
    if !st.lockConfig && p != 0 {
      UnlinkEffect(st, p);
    }
  }

  // ------------------------------------------------------------------- signals

  /** There is memory for a value cell and for a structure. */
  ghost predicate SigRoom(st: State) {
    && (exists at: nat :: Fits(st.arena, CELL_SIZE, at))
    && (st.sigs.free != [] || AllocDown(AllocUp(st.arena, CELL_SIZE).0, SIG_SIZE).1.Some?)
  }

  /** A signal with nothing on it has joined the list; its value is 0, and nothing else has changed. */
  ghost predicate SigMade(st: State, st': State, s: Off, name: string, typ: Type) {
    && s !in st.sigs.list && s in st'.sigs.items
    && (exists i :: 0 <= i < |st'.sigs.list| && st'.sigs.list[i] == s && Remove(st'.sigs.list, i) == st.sigs.list)
    && st'.sigs.items == st.sigs.items[s := st'.sigs.items[s]]
    && var sig := st'.sigs.items[s];
    && sig.name == name && sig.typ == typ && sig.readers == sig.writers == sig.bidirs == 0
    && sig.data !in st.cells && st'.cells == st.cells[sig.data := 0]
    && st' == st.(sigs := st'.sigs, cells := st'.cells, arena := st'.arena)
  }

  lemma SigRoomIff(st: State)
    requires Inv(st)
    ensures var (m1, cell) := AllocUp(st.arena, CELL_SIZE);
            var (pool, m2, s) := Alloc(st.sigs, m1, SIG_SIZE, Sig("", 0, Bit, 0, 0, 0));
            cell.Some? && s != 0 <==> SigRoom(st)
  {
    var m1 := AllocUp(st.arena, CELL_SIZE).0;
    AllocUpExact(st.arena, CELL_SIZE);
    AllocDownExact(m1, SIG_SIZE);
    assert st.sigs.free != [] ==> st.sigs.free[0] in st.sigs.free;
  }

  /** The parts of `hal_signal_new` once the name has been accepted. */
  lemma SignalNewSteps(st: State, name: string, typ: Type)
    requires Inv(st) && |name| <= HAL_NAME_LEN && !st.lockConfig && !SigThere(st, name)
    ensures var (m1, cell) := AllocUp(st.arena, CELL_SIZE);
            var (pool, m2, s) := Alloc(st.sigs, m1, SIG_SIZE, Sig("", 0, Bit, 0, 0, 0));
            && (SigRoom(st) ==>
                  && cell.Some? && SigMemory(st, pool, m2, s, cell.value)
                  && SignalNew(st, name, typ) == (FinishSig(st, pool, m2, s, Sig(name, cell.value, typ, 0, 0, 0)), Ok))
            && (!SigRoom(st) ==> SignalNew(st, name, typ) == (st.(sigs := pool, arena := m2), Err(ENOMEM)))
  {
    SigLookup(st, name);
    SignalMemory(st);
    SigRoomIff(st);
  }

  lemma FinishSigLists(st: State, pool: Pool<Sig>, m: Arena, s: Off, sig: Sig)
    requires PoolOk(st.sigs) && pool.list == st.sigs.list
    ensures var st' := FinishSig(st, pool, m, s, sig);
            && (exists i :: 0 <= i < |st'.sigs.list| && st'.sigs.list[i] == s && Remove(st'.sigs.list, i) == st.sigs.list)
            && st' == st.(sigs := st'.sigs, cells := st.cells[sig.data := 0], arena := m)
  {
    var st', i := FinishSig(st, pool, m, s, sig), Place(SigNames(st.sigs.list, st.sigs.items), sig.name);
    InsertedAt(st.sigs.list, i, s);
    assert st'.sigs.list[i] == s && Remove(st'.sigs.list, i) == st.sigs.list;
  }

  lemma FinishSigMakes(st: State, pool: Pool<Sig>, m: Arena, s: Off, sig: Sig)
    requires ListInv(st) && SigMemory(st, pool, m, s, sig.data) && sig.readers == sig.writers == sig.bidirs == 0
    ensures SigMade(st, FinishSig(st, pool, m, s, sig), s, sig.name, sig.typ)
  {
    FinishSigPool(st, pool, m, s, sig);
    FinishSigLists(st, pool, m, s, sig);
  }

  /** `hal_signal_new` succeeds if and only if nothing is locked, the name is new and not too long and there is memory. */
  lemma SignalNewExact(st: State, name: string, typ: Type)
    requires Inv(st)
    ensures var (st', r) := SignalNew(st, name, typ);
            && (r.Ok? <==> |name| <= HAL_NAME_LEN && !st.lockConfig && !SigThere(st, name) && SigRoom(st))
            && (r == Err(EPERM) <==> |name| <= HAL_NAME_LEN && st.lockConfig)
            && (r == Err(ENOMEM) <==> |name| <= HAL_NAME_LEN && !st.lockConfig && !SigThere(st, name) && !SigRoom(st))
            && (r.Ok? ==> exists s :: SigMade(st, st', s, name, typ))
            && (r.Err? ==> st' == st.(sigs := st'.sigs, arena := st'.arena) && st'.sigs.list == st.sigs.list
                           && forall t :: t in st.sigs.list ==> t in st'.sigs.items && st'.sigs.items[t] == st.sigs.items[t])
  {
    SigLookup(st, name);
    if |name| <= HAL_NAME_LEN && !st.lockConfig && !SigThere(st, name) {
      SignalNewSteps(st, name, typ);
      var (m1, cell) := AllocUp(st.arena, CELL_SIZE);
      var (pool, m2, s) := Alloc(st.sigs, m1, SIG_SIZE, Sig("", 0, Bit, 0, 0, 0));
      SignalMemory(st);
      if SigRoom(st) {
        FinishSigMakes(st, pool, m2, s, Sig(name, cell.value, typ, 0, 0, 0));
      }
    }
  }

  /** A pin of a signal that goes is on none; every other pin is as it was. */
  predicate OffSignal(pin: Pin, pin': Pin, s: Off) {
    if pin.signal == s then pin'.signal == 0 && SamePin(pin, pin') else pin' == pin
  }

  /** The signal has left its list, nothing is on it, and every other pin and signal is as it was. */
  ghost predicate SigGone(st: State, st': State, s: Off) {
    && s in st.sigs.list && (forall t :: t in st'.sigs.list <==> t in st.sigs.list && t != s)
    && st'.pins.list == st.pins.list && st'.comps == st.comps && st'.cells == st.cells && Inv(st')
    && (forall p :: p in st.pins.list && p in st.pins.items ==>
          p in st'.pins.items && OffSignal(st.pins.items[p], st'.pins.items[p], s))
    && (forall t :: t in st'.sigs.list && t in st'.sigs.items ==>
          t in st.sigs.items && st'.sigs.items[t] == st.sigs.items[t])
  }

  /** `hal_signal_delete` succeeds if and only if nothing is locked and the signal is there. */
  lemma SignalDeleteExact(st: State, name: string)
    requires Inv(st) && Unlinkable(st)
    ensures var (st', r) := SignalDelete(st, name);
            && (r.Ok? <==> !st.lockConfig && SigThere(st, name))
            && (r == Err(EPERM) <==> st.lockConfig) && (r.Err? ==> st' == st)
            && (r.Ok? ==> exists s :: SigNamed(st, s, name) && SigGone(st, st', s))
  {
    SigLookup(st, name);
    var s := FindSig(st.sigs.list, st.sigs.items, name);
    if !st.lockConfig && s != 0 {
      DeleteGone(st, s);
      SignalDeleteKeepsInv(st, name);
    }
  }

  lemma DeleteGone(st: State, s: Off)
    requires Inv(st) && Unlinkable(st) && s in st.sigs.list
    ensures Unlinkable(st.(sigs := Detach(st.sigs, s)))
    ensures var st' := FreeSig(st.(sigs := Detach(st.sigs, s)), s); Inv(st') ==> SigGone(st, st', s)
  {
    SignalDeleteSteps(st, s);
    DetachMembers(st.sigs, s);
    UnlinkAllPins(st, st.pins.list, s);
  }

  lemma {:induction false} UnlinkAllPins(st: State, list: seq<Off>, s: Off)
    requires s != 0 && forall p :: p in list ==> CanUnlink(st, p)
    ensures var st' := UnlinkAll(st, list, s);
            && st'.pins.list == st.pins.list && st'.comps == st.comps && st'.cells == st.cells
            && (forall p :: p in st.pins.items ==>
                  && p in st'.pins.items
                  && (p in list || st.pins.items[p].signal != s ==> OffSignal(st.pins.items[p], st'.pins.items[p], s)))
            && (forall t :: t in st.sigs.items && t != s ==> t in st'.sigs.items && st'.sigs.items[t] == st.sigs.items[t])
    decreases list
  {
    if list != [] {
      var p := list[0];
      assert CanUnlink(st, p) && list == [p] + list[1..];
      if st.pins.items[p].signal == s {
        UnlinkOnePin(st, p, s);
        UnlinkAllPins(UnlinkPin(st, p), list[1..], s);
      } else {
        UnlinkAllPins(st, list[1..], s);
      }
    }
  }

  lemma UnlinkOnePin(st: State, p: Off, s: Off)
    requires CanUnlink(st, p) && st.pins.items[p].signal == s != 0
    ensures var st' := UnlinkPin(st, p);
            && st'.pins == st.pins.(items := st.pins.items[p := st'.pins.items[p]])
            && st'.comps == st.comps && st'.cells == st.cells
            && OffSignal(st.pins.items[p], st'.pins.items[p], s)
            && st'.sigs.items == st.sigs.items[s := st'.sigs.items[s]]
  {
  }

  // -------------------------------------------------------------------- values

  /** A value that a component stores through a pin is read by that pin and the pins on its signal, and by no other. */
  lemma StoreSeen(st: State, p: Off, v: Value, q: Off)
    requires Inv(st) && p in st.pins.list && q in st.pins.list
    ensures var st', s := Store(st, p, v), st.pins.items[p].signal;
            && q in st'.pins.items
            && Reads(st', q) == if q == p || (s != 0 && st.pins.items[q].signal == s) then v else Reads(st, q)
  {
    assert LinkOk(st.pins.items[p], st.sigs) && LinkOk(st.pins.items[q], st.sigs);
    var s, t := st.pins.items[p].signal, st.pins.items[q].signal;
    if s != 0 && t != 0 && s != t {
      assert st.sigs.items[s].data != st.sigs.items[t].data;
    }
  }
}
