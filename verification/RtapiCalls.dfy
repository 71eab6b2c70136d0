/**
 What each call on the RTAPI resource tables gives the module that makes it (src/rtapi/rtai_rtapi.c,
 src/rtapi/rtapi_common.h), exactly when it succeeds, and that it takes nothing from any other module.
 */
module RtapiCalls {
  import opened Bitmap
  import opened Priority
  import opened Rtapi
  import opened RtapiProofs

  /** Slot `n` alone has changed. */
  predicate OnlySlot<T(==)>(t: Table<T>, t': Table<T>, n: int) {
    |t'.slots| == |t.slots| && 1 <= n < |t.slots| && forall i :: 0 <= i < |t.slots| && i != n ==> t'.slots[i] == t.slots[i]
  }

  // ------------------------------------------------------------------- modules

  /** A new module gets an id that no module had, unless all are taken. */
  lemma InitExact(st: State)
    requires Inv(st)
    ensures var mods, (t', r) := st.modules.slots, Init(st.modules);
            && (r.Done? <==> exists n: int :: 1 <= n <= MAX_MODULES && !IsLive(mods, n))
            && (r.Done? ==> !IsLive(mods, r.id) && IsLive(t'.slots, r.id))
            && (r.Done? ==> forall k: int :: k != r.id ==> (IsLive(t'.slots, k) <==> IsLive(mods, k)))
            && (r.Err? ==> t' == st.modules && r.e == EMFILE)
  {
    var n := First(st.modules.slots, ModuleFree, 1);
    if n <= MAX_MODULES {
      assert ModuleFree(st.modules.slots[n]) && !IsLive(st.modules.slots, n);
    } else {
      assert forall k :: 1 <= k < n ==> !ModuleFree(st.modules.slots[k]);
    }
  }

  // --------------------------------------------------------------------- tasks

  predicate FreeTask(t: Table<Task>) { exists i :: 1 <= i < |t.slots| && t.slots[i].state.Empty? }

  /** The caller gets a slot that was free, with itself as owner and the priority it asked for. */
  lemma TaskNewExact(mods: seq<bool>, t: Table<Task>, prio: int, owner: int, kmalloc: bool, os: Os)
    requires TasksOk(mods, t)
    ensures var (t', r) := TaskNew(mods, t, prio, owner, kmalloc, os);
            && (r.Done? <==> IsLive(mods, owner) && FreeTask(t) && PRIO_HIGHEST <= prio <= PRIO_LOWEST && kmalloc && os.OsOk?)
            && (r.Done? ==> OnlySlot(t, t', r.id) && t.slots[r.id].state.Empty?)
            && (r.Done? ==> var task := t'.slots[r.id]; task.owner == owner && task.prio == prio && task.state.Paused?)
            && (r.Err? ==> t' == t)
            && (r == Err(EMFILE) <==> IsLive(mods, owner) && !FreeTask(t))
            && (r == Err(ENOMEM) <==> IsLive(mods, owner) && FreeTask(t) && PRIO_HIGHEST <= prio <= PRIO_LOWEST
                                      && (!kmalloc || os.OsNoMem?))
  {
    var n := First(t.slots, TaskFree, 1);
    if n <= MAX_TASKS {
      assert TaskFree(t.slots[n]);
    } else {
      assert forall k :: 1 <= k < n ==> !TaskFree(t.slots[k]);
    }
  }

  lemma TaskDeleteExact(mods: seq<bool>, t: Table<Task>, id: int)
    requires TasksOk(mods, t)
    ensures var (t', r) := TaskDelete(t, id);
            && (r.Done? <==> 1 <= id <= MAX_TASKS && !t.slots[id].state.Empty?)
            && (r.Done? ==> OnlySlot(t, t', id) && t'.slots[id].state.Empty?)
            && (r.Err? ==> t' == t && r.e == EINVAL)
  {
  }

  /** Starting, pausing or ending a task changes its state and nothing else. */
  lemma TaskRunsExact(mods: seq<bool>, t: Table<Task>, id: int, state: TaskState)
    requires TasksOk(mods, t) && !state.Empty?
    ensures var t' := TaskRuns(t, id, state);
            if 1 <= id <= MAX_TASKS && !t.slots[id].state.Empty?
            then OnlySlot(t, t', id) && t'.slots[id].state == state && t'.slots[id].owner == t.slots[id].owner
                 && t'.slots[id].prio == t.slots[id].prio
            else t' == t
  {
  }

  // ------------------------------------------------------------- shared memory

  predicate BlockAt(t: Table<Block>, key: int, n: int) { 1 <= n < |t.slots| && t.slots[n].key == key }

  lemma BlockSearch(mods: seq<bool>, t: Table<Block>, key: int)
    requires BlocksOk(mods, t)
    ensures var n := First(t.slots, BlockKeyIs(key), 1);
            if n <= MAX_SHMEMS then BlockAt(t, key, n) else forall i :: !BlockAt(t, key, i)
    ensures key != 0 ==> forall i, j :: BlockAt(t, key, i) && BlockAt(t, key, j) ==> i == j
    ensures var n := First(t.slots, BlockFree, 1);
            if n <= MAX_SHMEMS then BlockAt(t, 0, n) else forall i :: !BlockAt(t, 0, i)
  {
    var n, f := First(t.slots, BlockKeyIs(key), 1), First(t.slots, BlockFree, 1);
    assert n <= MAX_SHMEMS ==> BlockKeyIs(key)(t.slots[n]);
    assert f <= MAX_SHMEMS ==> BlockFree(t.slots[f]);
    assert forall k :: 1 <= k < n ==> !BlockKeyIs(key)(t.slots[k]);
    assert forall k :: 1 <= k < f ==> !BlockFree(t.slots[k]);
  }

  /**
   The module may join: an open block of that key is large enough and not yet used by it; or there is
   none, and a free slot and memory.
   */
  ghost predicate MayOpenBlock(t: Table<Block>, key: int, m: int, size: nat, kmalloc: bool) {
    && (forall i :: BlockAt(t, key, i) ==> size <= t.slots[i].size && m !in Members(t.slots[i].bits))
    && ((exists i :: BlockAt(t, key, i)) || (kmalloc && exists i :: BlockAt(t, 0, i)))
  }

  lemma FreeBlockFacts(mods: seq<bool>, b: Block)
    requires BlockOk(mods, b) && b.key == 0
    ensures Members(b.bits) == {}
  {
    assert |Members(b.bits)| == 0;
  }

  /** The block of that key has the module as one more user, and the size asked for if it is new. */
  lemma ShmemNewExact(mods: seq<bool>, t: Table<Block>, key: int, m: int, size: nat, kmalloc: bool)
    requires BlocksOk(mods, t)
    ensures BlocksSized(t)
    ensures var (t', r) := ShmemNew(mods, t, key, m, size, kmalloc);
            && (r.Done? <==> key != 0 && key != RTAPI_KEY && IsLive(mods, m) && MayOpenBlock(t, key, m, size, kmalloc))
            && (r in {Err(EMFILE), Err(ENOMEM)} ==> forall i :: !BlockAt(t, key, i))
            && (r == Err(EMFILE) ==> forall i :: !BlockAt(t, 0, i)) && (r == Err(ENOMEM) ==> !kmalloc)
            && (r.Err? ==> t' == t)
            && (r.Done? ==> OnlySlot(t, t', r.id) && BlockOpened(t.slots[r.id], t'.slots[r.id], key, m, size))
  {
    ShmemNewKeeps(mods, t, key, m, size, kmalloc);
    BlockSearch(mods, t, key);
    if key != 0 && key != RTAPI_KEY && IsLive(mods, m) {
      var n, f := First(t.slots, BlockKeyIs(key), 1), First(t.slots, BlockFree, 1);
      if n <= MAX_SHMEMS {
        assert BlockOk(mods, t.slots[n]);
        OpenBlockExact(mods, t.slots[n], m, size, kmalloc);
      } else if f <= MAX_SHMEMS {
        assert BlockOk(mods, t.slots[f]);
        FreeBlockFacts(mods, t.slots[f]);
        MembersAfterSet(m, t.slots[f].bits);
      }
    }
  }

  /** What became of a slot that a module has opened. */
  ghost predicate BlockOpened(b: Block, b': Block, key: int, m: int, size: nat) {
    && b'.key == key && Members(b'.bits) == Members(b.bits) + {m} && m !in Members(b.bits)
    && if b.key == key then b'.size == b.size >= size else b.key == 0 && b'.size == size && Members(b.bits) == {}
  }

  lemma OpenBlockExact(mods: seq<bool>, b: Block, m: int, size: nat, kmalloc: bool)
    requires BlockOk(mods, b) && b.key != 0 && 1 <= m <= MAX_MODULES
    ensures var (b', r) := OpenBlock(b, m, size, kmalloc);
            && (r.Done? <==> size <= b.size && m !in Members(b.bits))
            && (r.Done? ==> BlockOpened(b, b', b.key, m, size))
  {
    assert TestBit(m, b.bits) <==> m in Members(b.bits);
    MembersAfterSet(m, b.bits);
  }

  /** The slot after the module has gone: it is free if nobody else used it. */
  ghost predicate BlockClosed(b: Block, b': Block, m: int) {
    && Members(b'.bits) == Members(b.bits) - {m}
    && if Members(b.bits) == {m} then b'.key == 0 else b'.key == b.key && b'.size == b.size
  }

  lemma CloseBlockExact(mods: seq<bool>, b: Block, m: int)
    requires BlockOk(mods, b) && 1 <= m <= MAX_MODULES && m in Members(b.bits)
    ensures BlockClosed(b, CloseBlock(b, m), m)
  {
    CloseBlockOk(mods, b, m);
    assert Members(b.bits) == {m} <==> |Members(b.bits) - {m}| == 0;
  }

  lemma ShmemDeleteExact(mods: seq<bool>, t: Table<Block>, id: int, m: int)
    requires BlocksOk(mods, t)
    ensures BlocksSized(t)
    ensures var (t', r) := ShmemDelete(mods, t, id, m);
            && (r.Done? <==> 1 <= id <= MAX_SHMEMS && IsLive(mods, m) && m in Members(t.slots[id].bits))
            && (r.Err? ==> t' == t && r.e == EINVAL)
            && (r.Done? ==> OnlySlot(t, t', id) && BlockClosed(t.slots[id], t'.slots[id], m))
  {
    ShmemDeleteKeeps(mods, t, id, m);
    if 1 <= id <= MAX_SHMEMS && IsLive(mods, m) {
      var b := t.slots[id];
      assert BlockOk(mods, b);
      assert TestBit(m, b.bits) <==> m in Members(b.bits);
      if m in Members(b.bits) {
        assert |Members(b.bits)| != 0;
        CloseBlockExact(mods, b, m);
      }
    }
  }

  // ---------------------------------------------------------------- semaphores

  /** A semaphore that is in use under this key; key 0 stands for a free slot. */
  predicate SemAt(t: Table<Sem>, key: int, n: int) { 1 <= n < |t.slots| && t.slots[n].key == key }

  lemma SemSearch(mods: seq<bool>, t: Table<Sem>, key: int)
    requires SemsOk(mods, t) && key != 0
    ensures var n := First(t.slots, SemKeyIs(key), 1);
            if n <= MAX_SEMS then SemAt(t, key, n) else forall i :: !SemAt(t, key, i)
    ensures forall i, j :: SemAt(t, key, i) && SemAt(t, key, j) ==> i == j
    ensures var n := First(t.slots, SemFree, 1);
            if n <= MAX_SEMS then SemAt(t, 0, n) else forall i :: !SemAt(t, 0, i)
  {
    assert forall i :: 0 <= i < |t.slots| ==> SemOk(mods, t.slots[i]);
    var n, f := First(t.slots, SemKeyIs(key), 1), First(t.slots, SemFree, 1);
    assert n <= MAX_SEMS ==> SemKeyIs(key)(t.slots[n]);
    assert f <= MAX_SEMS ==> SemFree(t.slots[f]);
    assert forall k :: 1 <= k < n ==> !SemKeyIs(key)(t.slots[k]);
    assert forall k :: 1 <= k < f ==> !SemFree(t.slots[k]);
  }

  /** The module does not use the semaphore of that key yet; there is one, or a free slot. */
  ghost predicate MayOpenSem(t: Table<Sem>, key: int, m: int) {
    && (forall i :: SemAt(t, key, i) ==> m !in Members(t.slots[i].bits))
    && ((exists i :: SemAt(t, key, i)) || (exists i :: SemAt(t, 0, i)))
  }

  ghost predicate SemOpened(s: Sem, s': Sem, key: int, m: int) {
    && s'.key == key && Members(s'.bits) == Members(s.bits) + {m} && m !in Members(s.bits)
    && (s.key != key ==> s.key == 0 && Members(s.bits) == {})
  }

  /** The semaphore of that key has the module as one more user. */
  lemma SemNewExact(mods: seq<bool>, t: Table<Sem>, key: int, m: int)
    requires SemsOk(mods, t)
    ensures SemsSized(t)
    ensures var (t', r) := SemNew(mods, t, key, m);
            && (r.Done? <==> key != 0 && IsLive(mods, m) && MayOpenSem(t, key, m))
            && (r == Err(EMFILE) <==> key != 0 && IsLive(mods, m) && forall i :: !SemAt(t, key, i) && !SemAt(t, 0, i))
            && (r.Err? ==> t' == t)
            && (r.Done? ==> OnlySlot(t, t', r.id) && SemOpened(t.slots[r.id], t'.slots[r.id], key, m))
  {
    SemNewKeeps(mods, t, key, m);
    if key != 0 && IsLive(mods, m) {
      SemSearch(mods, t, key);
      var n, f := First(t.slots, SemKeyIs(key), 1), First(t.slots, SemFree, 1);
      if n <= MAX_SEMS {
        SemBits(mods, t.slots[n], m);
      } else if f <= MAX_SEMS {
        SemBits(mods, t.slots[f], m);
      }
    }
  }

  lemma SemBits(mods: seq<bool>, s: Sem, m: int)
    requires SemOk(mods, s) && 1 <= m <= MAX_MODULES
    ensures TestBit(m, s.bits) <==> m in Members(s.bits)
    ensures Members(SetBit(m, s.bits)) == Members(s.bits) + {m}
    ensures s.key == 0 ==> Members(s.bits) == {}
  {
    MembersAfterSet(m, s.bits);
    assert s.key == 0 ==> |Members(s.bits)| == 0;
  }

  ghost predicate SemClosed(s: Sem, s': Sem, m: int) {
    Members(s'.bits) == Members(s.bits) - {m} && s'.key == if Members(s.bits) == {m} then 0 else s.key
  }

  lemma SemDeleteExact(mods: seq<bool>, t: Table<Sem>, id: int, m: int)
    requires SemsOk(mods, t)
    ensures SemsSized(t)
    ensures var (t', r) := SemDelete(mods, t, id, m);
            && (r.Done? <==> 1 <= id <= MAX_SEMS && IsLive(mods, m) && m in Members(t.slots[id].bits))
            && (r.Err? ==> t' == t && r.e == EINVAL)
            && (r.Done? ==> OnlySlot(t, t', id) && SemClosed(t.slots[id], t'.slots[id], m))
  {
    SemDeleteKeeps(mods, t, id, m);
    if 1 <= id <= MAX_SEMS && IsLive(mods, m) {
      var s := t.slots[id];
      SemBits(mods, s, m);
      if m in Members(s.bits) {
        assert |Members(s.bits)| != 0;
        CloseSemOk(mods, s, m);
        assert Members(s.bits) == {m} <==> |Members(s.bits) - {m}| == 0;
      }
    }
  }

  // --------------------------------------------------------------------- fifos

  predicate FifoAt(t: Table<Fifo>, key: int, n: int) { 1 <= n < |t.slots| && t.slots[n].key == key }

  lemma FifoSearch(mods: seq<bool>, t: Table<Fifo>, key: int)
    requires FifosOk(mods, t) && key != 0
    ensures var n := First(t.slots, FifoKeyIs(key), 1);
            if n <= MAX_FIFOS then FifoAt(t, key, n) else forall i :: !FifoAt(t, key, i)
    ensures forall i, j :: FifoAt(t, key, i) && FifoAt(t, key, j) ==> i == j
    ensures var n := First(t.slots, FifoFree, 1);
            if n <= MAX_FIFOS then FifoAt(t, 0, n) else forall i :: !FifoAt(t, 0, i)
  {
    assert forall i :: 0 <= i < |t.slots| ==> FifoOk(mods, t.slots[i]);
    var n, f := First(t.slots, FifoKeyIs(key), 1), First(t.slots, FifoFree, 1);
    assert n <= MAX_FIFOS ==> FifoKeyIs(key)(t.slots[n]);
    assert f <= MAX_FIFOS ==> FifoFree(t.slots[f]);
    assert forall k :: 1 <= k < n ==> !FifoKeyIs(key)(t.slots[k]);
    assert forall k :: 1 <= k < f ==> !FifoFree(t.slots[k]);
  }

  /** The module that holds the reading or the writing end, or 0. */
  function EndOf(f: Fifo, mode: Mode): int { if mode.Read? then f.reader else f.writer }

  function Other(mode: Mode): Mode { if mode.Read? then Write else Read }

  /** A fifo of that key has an end of that kind already. */
  ghost predicate EndTaken(t: Table<Fifo>, key: int, mode: Mode) {
    exists i :: FifoAt(t, key, i) && EndOf(t.slots[i], mode) != 0
  }

  /** There is a fifo of that key, or a free slot and what the system must give for a new one. */
  ghost predicate FifoRoom(t: Table<Fifo>, key: int, os: Os) {
    (exists i :: FifoAt(t, key, i)) || (os.OsOk? && exists i :: FifoAt(t, 0, i))
  }

  predicate FifoOpened(f: Fifo, f': Fifo, key: int, m: int, size: nat, mode: Mode) {
    && f'.key == key && EndOf(f, mode) == 0 && EndOf(f', mode) == m && EndOf(f', Other(mode)) == EndOf(f, Other(mode))
    && if f.key == key then f'.size == f.size else f.key == 0 && f'.size == size && EndOf(f', Other(mode)) == 0
  }

  /**
   The caller holds the end it asked for, the other end and the other fifos are as they were.  The call
   is refused as busy exactly if that end is taken.
   */
  lemma FifoNewExact(mods: seq<bool>, t: Table<Fifo>, key: int, m: int, size: nat, mode: Mode, os: Os)
    requires FifosOk(mods, t)
    ensures var (t', r) := FifoNew(mods, t, key, m, size, mode, os);
            && (r.Done? <==> key != 0 && IsLive(mods, m) && !EndTaken(t, key, mode) && FifoRoom(t, key, os))
            && (r == Err(EBUSY) <==> key != 0 && IsLive(mods, m) && EndTaken(t, key, mode))
            && (r.Err? ==> t' == t)
            && (r.Done? ==> OnlySlot(t, t', r.id) && FifoOpened(t.slots[r.id], t'.slots[r.id], key, m, size, mode))
  {
    if key != 0 && IsLive(mods, m) {
      FifoSearch(mods, t, key);
      var n, f := First(t.slots, FifoKeyIs(key), 1), First(t.slots, FifoFree, 1);
      if n <= MAX_FIFOS {
        assert FifoOk(mods, t.slots[n]);
      } else if f <= MAX_FIFOS {
        assert FifoOk(mods, t.slots[f]);
      }
    }
  }

  /** The module has given up the ends it held, and the slot is free if nobody holds the other. */
  predicate FifoClosed(f: Fifo, f': Fifo, m: int) {
    && f'.reader == (if f.reader == m then 0 else f.reader) && f'.writer == (if f.writer == m then 0 else f.writer)
    && if f'.reader == 0 && f'.writer == 0 then f'.key == 0 else f'.key == f.key && f'.size == f.size
  }

  lemma FifoDeleteExact(mods: seq<bool>, t: Table<Fifo>, id: int, m: int)
    requires FifosOk(mods, t)
    ensures var (t', r) := FifoDelete(mods, t, id, m);
            && (r.Done? <==> 1 <= id <= MAX_FIFOS && IsLive(mods, m) && m in {t.slots[id].reader, t.slots[id].writer})
            && (r.Err? ==> t' == t && r.e == EINVAL)
            && (r.Done? ==> OnlySlot(t, t', id) && FifoClosed(t.slots[id], t'.slots[id], m))
  {
    if 1 <= id <= MAX_FIFOS {
      assert FifoOk(mods, t.slots[id]);
    }
  }

  // ---------------------------------------------------------------- interrupts

  predicate IrqAt(t: Table<Irq>, num: int, n: int) { 1 <= n < |t.slots| && t.slots[n].num == num }

  lemma IrqSearch(mods: seq<bool>, t: Table<Irq>, num: int)
    requires IrqsOk(mods, t)
    ensures var n := First(t.slots, IrqNumIs(num), 1);
            if n <= MAX_IRQS then IrqAt(t, num, n) else forall i :: !IrqAt(t, num, i)
    ensures var n := First(t.slots, IrqFree, 1);
            if n <= MAX_IRQS then IrqAt(t, 0, n) else forall i :: !IrqAt(t, 0, i)
  {
    var n, f := First(t.slots, IrqNumIs(num), 1), First(t.slots, IrqFree, 1);
    assert n <= MAX_IRQS ==> IrqNumIs(num)(t.slots[n]);
    assert f <= MAX_IRQS ==> IrqFree(t.slots[f]);
    assert forall k :: 1 <= k < n ==> !IrqNumIs(num)(t.slots[k]);
    assert forall k :: 1 <= k < f ==> !IrqFree(t.slots[k]);
  }

  /** The interrupt goes to the caller if nobody has it and a slot is free, and nothing else changes. */
  lemma IrqNewExact(mods: seq<bool>, t: Table<Irq>, num: int, owner: int, handler: bool, os: Os)
    requires IrqsOk(mods, t)
    ensures var (t', r) := IrqNew(mods, t, num, owner, handler, os);
            && (r.Done? <==> 1 <= num <= 255 && handler && IsLive(mods, owner) && os.OsOk?
                             && (forall i :: !IrqAt(t, num, i)) && exists i :: IrqAt(t, 0, i))
            && (1 <= num <= 255 && handler && IsLive(mods, owner) && (exists i :: IrqAt(t, num, i)) ==> r == Err(EBUSY))
            && (r.Err? ==> t' == t)
            && (r.Done? ==> exists n :: && IrqAt(t, 0, n) && OnlySlot(t, t', n)
                                        && t'.slots[n].num == num && t'.slots[n].owner == owner)
  {
    IrqSearch(mods, t, num);
    var (t', r) := IrqNew(mods, t, num, owner, handler, os);
    if r.Done? {
      var n := First(t.slots, IrqFree, 1);
      assert IrqAt(t, 0, n) && OnlySlot(t, t', n) && t'.slots[n].num == num && t'.slots[n].owner == owner;
    }
  }

  lemma IrqDeleteExact(mods: seq<bool>, t: Table<Irq>, num: int, os: Os)
    requires IrqsOk(mods, t)
    ensures var (t', r) := IrqDelete(t, num, os);
            && (r.Done? <==> 1 <= num <= 255 && os.OsOk? && exists i :: IrqAt(t, num, i))
            && (r.Err? ==> t' == t && r.e == EINVAL)
            && (r.Done? ==> exists n :: IrqAt(t, num, n) && OnlySlot(t, t', n) && IrqAt(t', 0, n))
  {
    IrqSearch(mods, t, num);
    var (t', r) := IrqDelete(t, num, os);
    if r.Done? {
      var n := First(t.slots, IrqNumIs(num), 1);
      assert IrqAt(t, num, n) && OnlySlot(t, t', n) && IrqAt(t', 0, n);
    }
  }

  // ------------------------------------------------------------- other modules

  /** The call is one by which module `k` may lose something: its exit, its deletions, or one of what it owns. */
  predicate TakesFrom(st: State, op: Op, k: int) {
    match op
    case ExitOp(m) => m == k
    case ShmemDeleteOp(_, m) => m == k
    case SemDeleteOp(_, m) => m == k
    case FifoDeleteOp(_, m) => m == k
    case TaskDeleteOp(id) => 0 <= id < |st.tasks.slots| && st.tasks.slots[id].owner == k
    case TaskRunsOp(id, _) => 0 <= id < |st.tasks.slots| && st.tasks.slots[id].owner == k
    case IrqDeleteOp(num, _) =>
      exists i :: 0 <= i < |st.irqs.slots| && st.irqs.slots[i].num == num && st.irqs.slots[i].owner == k
    case _ => false
  }

  lemma TaskNewStep(st: State, op: Op, k: int)
    requires Inv(st) && k != 0 && op.TaskNewOp?
    ensures Undisturbed(st, Step(st, op), k)
  {
    TaskNewExact(st.modules.slots, st.tasks, op.prio, op.owner, op.kmalloc, op.os);
  }

  lemma TaskStep(st: State, op: Op, k: int)
    requires Inv(st) && k != 0 && !TakesFrom(st, op, k) && (op.TaskDeleteOp? || op.TaskRunsOp?)
    ensures Undisturbed(st, Step(st, op), k)
  {
    TaskDeleteExact(st.modules.slots, st.tasks, op.id);
  }

  /** Shared memory that one slot's change leaves to module `k`. */
  ghost predicate BlocksKept(t: Table<Block>, t': Table<Block>, k: int) {
    forall i :: 0 <= i < |t.slots| && k in Members(t.slots[i].bits) ==>
      && i < |t'.slots| && k in Members(t'.slots[i].bits)
      && t'.slots[i].key == t.slots[i].key && t'.slots[i].size == t.slots[i].size
  }

  lemma ShmemsOnly(st: State, t': Table<Block>, k: int)
    requires BlocksKept(st.shmems, t', k)
    ensures Undisturbed(st, st.(shmems := t'), k)
  {
  }

  lemma ShmemNewStep(mods: seq<bool>, t: Table<Block>, key: int, m: int, size: nat, kmalloc: bool, k: int)
    requires BlocksOk(mods, t)
    ensures BlocksSized(t) && BlocksKept(t, ShmemNew(mods, t, key, m, size, kmalloc).0, k)
  {
    ShmemNewExact(mods, t, key, m, size, kmalloc);
  }

  lemma ShmemDeleteStep(mods: seq<bool>, t: Table<Block>, id: int, m: int, k: int)
    requires BlocksOk(mods, t) && k != m
    ensures BlocksSized(t) && BlocksKept(t, ShmemDelete(mods, t, id, m).0, k)
  {
    ShmemDeleteExact(mods, t, id, m);
  }

  lemma ShmemStep(st: State, op: Op, k: int)
    requires Inv(st) && !TakesFrom(st, op, k) && (op.ShmemNewOp? || op.ShmemDeleteOp?)
    ensures Undisturbed(st, Step(st, op), k)
  {
    if op.ShmemNewOp? {
      ShmemNewStep(st.modules.slots, st.shmems, op.key, op.m, op.size, op.kmalloc, k);
    } else {
      ShmemDeleteStep(st.modules.slots, st.shmems, op.id, op.m, k);
    }
    ShmemsOnly(st, Step(st, op).shmems, k);
  }

  ghost predicate SemsKept(t: Table<Sem>, t': Table<Sem>, k: int) {
    forall i :: 0 <= i < |t.slots| && k in Members(t.slots[i].bits) ==>
      i < |t'.slots| && k in Members(t'.slots[i].bits) && t'.slots[i].key == t.slots[i].key
  }

  lemma SemsOnly(st: State, t': Table<Sem>, k: int)
    requires SemsKept(st.sems, t', k)
    ensures Undisturbed(st, st.(sems := t'), k)
  {
  }

  lemma SemNewStep(mods: seq<bool>, t: Table<Sem>, key: int, m: int, k: int)
    requires SemsOk(mods, t)
    ensures SemsSized(t) && SemsKept(t, SemNew(mods, t, key, m).0, k)
  {
    SemNewExact(mods, t, key, m);
  }

  lemma SemDeleteStep(mods: seq<bool>, t: Table<Sem>, id: int, m: int, k: int)
    requires SemsOk(mods, t) && k != m
    ensures SemsSized(t) && SemsKept(t, SemDelete(mods, t, id, m).0, k)
  {
    SemDeleteExact(mods, t, id, m);
  }

  lemma SemStep(st: State, op: Op, k: int)
    requires Inv(st) && !TakesFrom(st, op, k) && (op.SemNewOp? || op.SemDeleteOp?)
    ensures Undisturbed(st, Step(st, op), k)
  {
    if op.SemNewOp? {
      SemNewStep(st.modules.slots, st.sems, op.key, op.m, k);
    } else {
      SemDeleteStep(st.modules.slots, st.sems, op.id, op.m, k);
    }
    SemsOnly(st, Step(st, op).sems, k);
  }

  lemma FifoNewStep(st: State, op: Op, k: int)
    requires Inv(st) && k != 0 && op.FifoNewOp?
    ensures Undisturbed(st, Step(st, op), k)
  {
    FifoNewExact(st.modules.slots, st.fifos, op.key, op.m, op.size, op.mode, op.os);
  }

  lemma FifoDeleteStep(st: State, op: Op, k: int)
    requires Inv(st) && k != 0 && op.FifoDeleteOp? && op.m != k
    ensures Undisturbed(st, Step(st, op), k)
  {
    FifoDeleteExact(st.modules.slots, st.fifos, op.id, op.m);
  }

  lemma IrqNewStep(st: State, op: Op, k: int)
    requires Inv(st) && k != 0 && op.IrqNewOp?
    ensures Undisturbed(st, Step(st, op), k)
  {
    assert forall i :: 0 <= i < |st.irqs.slots| ==> IrqOk(st.modules.slots, st.irqs.slots[i]);
    IrqNewExact(st.modules.slots, st.irqs, op.num, op.owner, op.handler, op.os);
  }

  lemma IrqDeleteStep(st: State, op: Op, k: int)
    requires Inv(st) && !TakesFrom(st, op, k) && op.IrqDeleteOp?
    ensures Undisturbed(st, Step(st, op), k)
  {
    IrqDeleteExact(st.modules.slots, st.irqs, op.num, op.os);
  }

  /** Whatever is called, a module keeps all it has, unless the call is its own deletion or exit or names what it owns. */
  lemma StepUndisturbs(st: State, op: Op, k: int)
    requires Inv(st) && k != 0 && !TakesFrom(st, op, k)
    ensures Undisturbed(st, Step(st, op), k)
  {
    if op.TaskNewOp? {
      TaskNewStep(st, op, k);
    } else if op.TaskDeleteOp? || op.TaskRunsOp? {
      TaskStep(st, op, k);
    } else if op.ShmemNewOp? || op.ShmemDeleteOp? {
      ShmemStep(st, op, k);
    } else if op.SemNewOp? || op.SemDeleteOp? {
      SemStep(st, op, k);
    } else if op.FifoNewOp? {
      FifoNewStep(st, op, k);
    } else if op.FifoDeleteOp? {
      FifoDeleteStep(st, op, k);
    } else if op.IrqNewOp? {
      IrqNewStep(st, op, k);
    } else if op.IrqDeleteOp? {
      IrqDeleteStep(st, op, k);
    } else if op.ExitOp? && IsLive(st.modules.slots, op.m) {
      ExitLeavesOthers(st, op.m, k);
    }
  }

  lemma UndisturbedTwice(st: State, st1: State, st2: State, k: int)
    requires Undisturbed(st, st1, k) && Undisturbed(st1, st2, k)
    ensures Undisturbed(st, st2, k)
  {
  }

  /** The `i`-th call of the run may take something from the module. */
  ghost predicate TakesAt(ops: seq<Op>, i: nat, k: int)
    requires i < |ops|
  {
    TakesFrom(Reached(ops[..i]), ops[i], k)
  }

  lemma FrontTakes(ops: seq<Op>, last: nat, n: nat, k: int)
    requires |ops| == last + 1 && n <= last && forall i :: n <= i < |ops| ==> !TakesAt(ops, i, k)
    ensures ops[..last][..n] == ops[..n] && forall i :: n <= i < last ==> !TakesAt(ops[..last], i, k)
  {
    forall i | n <= i < last
      ensures !TakesAt(ops[..last], i, k)
    {
      assert ops[..last][..i] == ops[..i] && !TakesAt(ops, i, k);
    }
  }

  lemma LastUndisturbs(ops: seq<Op>, last: nat, k: int)
    requires |ops| == last + 1 && k != 0 && !TakesAt(ops, last, k)
    ensures Undisturbed(Reached(ops[..last]), Reached(ops), k)
  {
    StepUndisturbs(Reached(ops[..last]), ops[last], k);
  }

  /** So over whole runs: a module keeps what it has for as long as no call takes it from it. */
  lemma {:induction false} RunUndisturbs(ops: seq<Op>, n: nat, k: int)
    requires n <= |ops| && k != 0 && forall i :: n <= i < |ops| ==> !TakesAt(ops, i, k)
    ensures Undisturbed(Reached(ops[..n]), Reached(ops), k)
  {
    if n == |ops| {
      assert ops[..n] == ops;
    } else {
      var last := |ops| - 1;
      FrontTakes(ops, last, n, k);
      RunUndisturbs(ops[..last], n, k);
      LastUndisturbs(ops, last, k);
      UndisturbedTwice(Reached(ops[..n]), Reached(ops[..last]), Reached(ops), k);
    }
  }
}
