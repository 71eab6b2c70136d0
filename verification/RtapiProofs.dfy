/**
 What every call keeps of the RTAPI resource tables: counts are right, user counts are the
 numbers of bits set, everything in use belongs to a live module; and what an exit removes.
 */
module RtapiProofs {
  import opened Bitmap
  import opened Priority
  import opened Rtapi

  // ----------------------------------------------------------------- invariant

  predicate TaskOk(mods: seq<bool>, t: Task) {
    if t.state.Empty? then t == NO_TASK else IsLive(mods, t.owner) && PRIO_HIGHEST <= t.prio <= PRIO_LOWEST
  }

  /** The bits set are those of live modules, and the user count is their number. */
  ghost predicate UsersOk(mods: seq<bool>, users: int, bits: Words) {
    && BitsOk(bits) && users == |Members(bits)|
    && forall k :: k in Members(bits) ==> IsLive(mods, k)
  }

  ghost predicate BlockOk(mods: seq<bool>, b: Block) {
    UsersOk(mods, b.users, b.bits) && (b.key == 0 <==> b.users == 0) && (b.key == 0 ==> b.size == 0)
  }

  ghost predicate SemOk(mods: seq<bool>, s: Sem) {
    UsersOk(mods, s.users, s.bits) && (s.key == 0 <==> s.users == 0)
  }

  predicate FifoOk(mods: seq<bool>, f: Fifo) {
    && (f.hasReader <==> f.reader != 0) && (f.reader != 0 ==> IsLive(mods, f.reader))
    && (f.hasWriter <==> f.writer != 0) && (f.writer != 0 ==> IsLive(mods, f.writer))
    && (FifoUsed(f) <==> f.key != 0) && (FifoUsed(f) || f.size == 0)
  }

  predicate IrqOk(mods: seq<bool>, q: Irq) {
    if q.num == 0 then q.owner == 0 else 1 <= q.num <= 255 && IsLive(mods, q.owner)
  }

  ghost predicate TasksOk(mods: seq<bool>, t: Table<Task>) {
    TableOk(t, TaskUsed, MAX_TASKS) && forall i :: 0 <= i < |t.slots| ==> TaskOk(mods, t.slots[i])
  }

  ghost predicate BlocksOk(mods: seq<bool>, t: Table<Block>) {
    && TableOk(t, BlockUsed, MAX_SHMEMS) && (forall i :: 0 <= i < |t.slots| ==> BlockOk(mods, t.slots[i]))
    && (forall i, j :: 0 <= i < j < |t.slots| && t.slots[i].key != 0 ==> t.slots[i].key != t.slots[j].key)
  }

  ghost predicate SemsOk(mods: seq<bool>, t: Table<Sem>) {
    && TableOk(t, SemUsed, MAX_SEMS) && (forall i :: 0 <= i < |t.slots| ==> SemOk(mods, t.slots[i]))
    && (forall i, j :: 0 <= i < j < |t.slots| && t.slots[i].key != 0 ==> t.slots[i].key != t.slots[j].key)
  }

  ghost predicate FifosOk(mods: seq<bool>, t: Table<Fifo>) {
    && TableOk(t, FifoUsed, MAX_FIFOS) && (forall i :: 0 <= i < |t.slots| ==> FifoOk(mods, t.slots[i]))
    && (forall i, j :: 0 <= i < j < |t.slots| && t.slots[i].key != 0 ==> t.slots[i].key != t.slots[j].key)
  }

  ghost predicate IrqsOk(mods: seq<bool>, t: Table<Irq>) {
    && TableOk(t, IrqUsed, MAX_IRQS) && (forall i :: 0 <= i < |t.slots| ==> IrqOk(mods, t.slots[i]))
    && (forall i, j :: 0 <= i < j < |t.slots| && t.slots[i].num != 0 ==> t.slots[i].num != t.slots[j].num)
  }

  ghost predicate Inv(st: State) {
    var mods := st.modules.slots;
    && TableOk(st.modules, ModuleUsed, MAX_MODULES)
    && TasksOk(mods, st.tasks) && BlocksOk(mods, st.shmems) && SemsOk(mods, st.sems)
    && FifosOk(mods, st.fifos) && IrqsOk(mods, st.irqs)
  }

  // ---------------------------------------------------------------- every call

  lemma TaskNewKeeps(mods: seq<bool>, t: Table<Task>, prio: int, owner: int, kmalloc: bool, os: Os)
    requires TasksOk(mods, t)
    ensures TasksOk(mods, TaskNew(mods, t, prio, owner, kmalloc, os).0)
  {
    var n := First(t.slots, TaskFree, 1);
    if n <= MAX_TASKS {
      SlotChange(t, TaskUsed, MAX_TASKS, n, Task(Paused, prio, owner));
    }
  }

  lemma TaskDeleteKeeps(mods: seq<bool>, t: Table<Task>, id: int)
    requires TasksOk(mods, t)
    ensures TasksOk(mods, TaskDelete(t, id).0)
  {
    if 1 <= id <= MAX_TASKS {
      SlotChange(t, TaskUsed, MAX_TASKS, id, NO_TASK);
    }
  }

  lemma TaskRunsKeeps(mods: seq<bool>, t: Table<Task>, id: int, state: TaskState)
    requires TasksOk(mods, t) && !state.Empty?
    ensures TasksOk(mods, TaskRuns(t, id, state))
  {
    if 1 <= id <= MAX_TASKS {
      SlotChange(t, TaskUsed, MAX_TASKS, id, t.slots[id].(state := state));
    }
  }

  /** One more user. */
  lemma UsersAfterSet(mods: seq<bool>, users: int, bits: Words, m: int)
    requires UsersOk(mods, users, bits) && IsLive(mods, m) && !TestBit(m, bits)
    ensures UsersOk(mods, users + 1, SetBit(m, bits))
  {
    MembersAfterSet(m, bits);
    assert m !in Members(bits);
  }

  /** One user fewer. */
  lemma UsersAfterClear(mods: seq<bool>, users: int, bits: Words, m: int)
    requires UsersOk(mods, users, bits) && 1 <= m <= MAX_MODULES && TestBit(m, bits)
    ensures users >= 1 && UsersOk(mods, users - 1, ClearBit(m, bits))
  {
    MembersAfterClear(m, bits);
    assert m in Members(bits);
    assert |Members(bits) - {m}| == |Members(bits)| - 1;
  }

  /** Without users no bit is set. */
  lemma NoUsers(mods: seq<bool>, users: int, bits: Words, m: int)
    requires UsersOk(mods, users, bits) && users == 0 && 1 <= m <= MAX_MODULES
    ensures !TestBit(m, bits)
  {
    assert TestBit(m, bits) ==> m in Members(bits);
  }

  lemma ShmemNewKeeps(mods: seq<bool>, t: Table<Block>, key: int, m: int, size: nat, kmalloc: bool)
    requires BlocksOk(mods, t)
    ensures BlocksSized(t) && BlocksOk(mods, ShmemNew(mods, t, key, m, size, kmalloc).0)
  {
    assert BlocksSized(t) by {
      assert forall i :: 0 <= i < |t.slots| ==> BlockOk(mods, t.slots[i]);
    }
    var t' := ShmemNew(mods, t, key, m, size, kmalloc).0;
    if key != 0 && key != RTAPI_KEY && IsLive(mods, m) {
      var n := First(t.slots, BlockKeyIs(key), 1);
      var f := First(t.slots, BlockFree, 1);
      if n <= MAX_SHMEMS && !TestBit(m, t.slots[n].bits) {
        assert BlockOk(mods, t.slots[n]);
        UsersAfterSet(mods, t.slots[n].users, t.slots[n].bits, m);
        SlotChange(t, BlockUsed, MAX_SHMEMS, n, OpenBlock(t.slots[n], m, size, kmalloc).0);
      } else if n > MAX_SHMEMS && f <= MAX_SHMEMS {
        assert BlockOk(mods, t.slots[f]);
        NoUsers(mods, t.slots[f].users, t.slots[f].bits, m);
        UsersAfterSet(mods, t.slots[f].users, t.slots[f].bits, m);
        SlotChange(t, BlockUsed, MAX_SHMEMS, f, Block(key, 1, size, SetBit(m, t.slots[f].bits)));
      }
    }
  }

  lemma CloseBlockOk(mods: seq<bool>, b: Block, m: int)
    requires BlockOk(mods, b) && 1 <= m <= MAX_MODULES && TestBit(m, b.bits)
    ensures BlockOk(mods, CloseBlock(b, m)) && b.key != 0
    ensures CloseBlock(b, m).key == b.key || CloseBlock(b, m).key == 0
    ensures Members(CloseBlock(b, m).bits) == Members(b.bits) - {m}
  {
    UsersAfterClear(mods, b.users, b.bits, m);
    MembersAfterClear(m, b.bits);
  }

  lemma ShmemDeleteKeeps(mods: seq<bool>, t: Table<Block>, id: int, m: int)
    requires BlocksOk(mods, t)
    ensures BlocksSized(t) && BlocksOk(mods, ShmemDelete(mods, t, id, m).0)
  {
    assert BlocksSized(t) by {
      assert forall i :: 0 <= i < |t.slots| ==> BlockOk(mods, t.slots[i]);
    }
    if 1 <= id <= MAX_SHMEMS && t.slots[id].key != 0 && IsLive(mods, m) && TestBit(m, t.slots[id].bits) {
      CloseBlockOk(mods, t.slots[id], m);
      SlotChange(t, BlockUsed, MAX_SHMEMS, id, CloseBlock(t.slots[id], m));
    }
  }

  lemma SemNewKeeps(mods: seq<bool>, t: Table<Sem>, key: int, m: int)
    requires SemsOk(mods, t)
    ensures SemsSized(t) && SemsOk(mods, SemNew(mods, t, key, m).0)
  {
    assert SemsSized(t) by {
      assert forall i :: 0 <= i < |t.slots| ==> SemOk(mods, t.slots[i]);
    }
    if key != 0 && IsLive(mods, m) {
      var n := First(t.slots, SemKeyIs(key), 1);
      var f := First(t.slots, SemFree, 1);
      if n <= MAX_SEMS && !TestBit(m, t.slots[n].bits) {
        var s := t.slots[n];
        UsersAfterSet(mods, s.users, s.bits, m);
        SlotChange(t, SemUsed, MAX_SEMS, n, s.(users := s.users + 1, bits := SetBit(m, s.bits)));
      } else if n > MAX_SEMS && f <= MAX_SEMS {
        var s := t.slots[f];
        NoUsers(mods, s.users, s.bits, m);
        UsersAfterSet(mods, s.users, s.bits, m);
        SlotChange(t, SemUsed, MAX_SEMS, f, Sem(1, key, SetBit(m, s.bits)));
        assert forall i :: 0 <= i < |t.slots| ==> t.slots[i].key != key by {
          assert forall i :: 0 <= i < |t.slots| ==> SemOk(mods, t.slots[i]);
        }
      }
    }
  }

  lemma CloseSemOk(mods: seq<bool>, s: Sem, m: int)
    requires SemOk(mods, s) && 1 <= m <= MAX_MODULES && TestBit(m, s.bits)
    ensures SemOk(mods, CloseSem(s, m)) && s.users != 0
    ensures CloseSem(s, m).key == s.key || CloseSem(s, m).key == 0
    ensures Members(CloseSem(s, m).bits) == Members(s.bits) - {m}
  {
    UsersAfterClear(mods, s.users, s.bits, m);
    MembersAfterClear(m, s.bits);
  }

  lemma SemDeleteKeeps(mods: seq<bool>, t: Table<Sem>, id: int, m: int)
    requires SemsOk(mods, t)
    ensures SemsSized(t) && SemsOk(mods, SemDelete(mods, t, id, m).0)
  {
    assert SemsSized(t) by {
      assert forall i :: 0 <= i < |t.slots| ==> SemOk(mods, t.slots[i]);
    }
    if 1 <= id <= MAX_SEMS && t.slots[id].users != 0 && IsLive(mods, m) && TestBit(m, t.slots[id].bits) {
      CloseSemOk(mods, t.slots[id], m);
      SlotChange(t, SemUsed, MAX_SEMS, id, CloseSem(t.slots[id], m));
    }
  }

  lemma FifoNewKeeps(mods: seq<bool>, t: Table<Fifo>, key: int, m: int, size: nat, mode: Mode, os: Os)
    requires FifosOk(mods, t)
    ensures FifosOk(mods, FifoNew(mods, t, key, m, size, mode, os).0)
  {
    var n := First(t.slots, FifoKeyIs(key), 1);
    var f := First(t.slots, FifoFree, 1);
    if n <= MAX_FIFOS {
      assert FifoOk(mods, t.slots[n]);
      SlotChange(t, FifoUsed, MAX_FIFOS, n, OpenFifo(t.slots[n], m, mode));
    } else if f <= MAX_FIFOS {
      assert FifoOk(mods, t.slots[f]);
      SlotChange(t, FifoUsed, MAX_FIFOS, f, OpenFifo(t.slots[f], m, mode).(key := key, size := size));
      assert key != 0 ==> forall i :: 0 <= i < |t.slots| ==> t.slots[i].key != key by {
        assert forall i :: 0 <= i < |t.slots| ==> FifoOk(mods, t.slots[i]);
      }
    }
  }

  lemma CloseFifoOk(mods: seq<bool>, f: Fifo, m: int)
    requires FifoOk(mods, f) && m != 0
    ensures FifoOk(mods, CloseFifo(f, m))
    ensures CloseFifo(f, m).reader == (if f.reader == m then 0 else f.reader)
    ensures CloseFifo(f, m).writer == (if f.writer == m then 0 else f.writer)
    ensures CloseFifo(f, m).key == f.key || CloseFifo(f, m).key == 0
  {
  }

  lemma FifoDeleteKeeps(mods: seq<bool>, t: Table<Fifo>, id: int, m: int)
    requires FifosOk(mods, t)
    ensures FifosOk(mods, FifoDelete(mods, t, id, m).0)
  {
    if 1 <= id <= MAX_FIFOS && IsLive(mods, m) {
      assert FifoOk(mods, t.slots[id]);
      CloseFifoOk(mods, t.slots[id], m);
      SlotChange(t, FifoUsed, MAX_FIFOS, id, CloseFifo(t.slots[id], m));
    }
  }

  lemma IrqNewKeeps(mods: seq<bool>, t: Table<Irq>, num: int, owner: int, handler: bool, os: Os)
    requires IrqsOk(mods, t)
    ensures IrqsOk(mods, IrqNew(mods, t, num, owner, handler, os).0)
  {
    var n := First(t.slots, IrqFree, 1);
    if n <= MAX_IRQS && First(t.slots, IrqNumIs(num), 1) > MAX_IRQS {
      SlotChange(t, IrqUsed, MAX_IRQS, n, Irq(num, owner));
    }
  }

  lemma IrqDeleteKeeps(mods: seq<bool>, t: Table<Irq>, num: int, os: Os)
    requires IrqsOk(mods, t)
    ensures IrqsOk(mods, IrqDelete(t, num, os).0)
  {
    var n := First(t.slots, IrqNumIs(num), 1);
    if n <= MAX_IRQS {
      SlotChange(t, IrqUsed, MAX_IRQS, n, NO_IRQ);
    }
  }

  // ------------------------------------------------------------------- modules

  /** Every live module stays live. */
  ghost predicate StillLive(mods: seq<bool>, mods': seq<bool>) {
    forall k: int :: IsLive(mods, k) ==> IsLive(mods', k)
  }

  lemma MoreModules(mods: seq<bool>, mods': seq<bool>, st: State)
    requires StillLive(mods, mods')
    requires TasksOk(mods, st.tasks) && BlocksOk(mods, st.shmems) && SemsOk(mods, st.sems)
    requires FifosOk(mods, st.fifos) && IrqsOk(mods, st.irqs)
    ensures TasksOk(mods', st.tasks) && BlocksOk(mods', st.shmems) && SemsOk(mods', st.sems)
    ensures FifosOk(mods', st.fifos) && IrqsOk(mods', st.irqs)
  {
  }

  lemma InitKeeps(st: State)
    requires Inv(st)
    ensures Inv(st.(modules := Init(st.modules).0))
  {
    var t := st.modules;
    var n := First(t.slots, ModuleFree, 1);
    if n <= MAX_MODULES {
      SlotChange(t, ModuleUsed, MAX_MODULES, n, true);
      MoreModules(t.slots, t.slots[n := true], st);
    }
  }

  /** The module owns no task, uses no block and no semaphore, holds no fifo end and no interrupt. */
  ghost predicate OwnsNothing(st: State, m: int) {
    && (forall i :: 0 <= i < |st.tasks.slots| ==> !(TaskUsed(st.tasks.slots[i]) && st.tasks.slots[i].owner == m))
    && (forall i :: 0 <= i < |st.shmems.slots| ==> m !in Members(st.shmems.slots[i].bits))
    && (forall i :: 0 <= i < |st.sems.slots| ==> m !in Members(st.sems.slots[i].bits))
    && (forall i :: 0 <= i < |st.fifos.slots| ==> st.fifos.slots[i].reader != m && st.fifos.slots[i].writer != m)
    && (forall i :: 0 <= i < |st.irqs.slots| ==> st.irqs.slots[i].owner != m)
  }

  /** An id that no live module has owns nothing, so a module that is given it starts with nothing. */
  lemma UnusedIdOwnsNothing(st: State, m: int)
    requires Inv(st) && m != 0 && !IsLive(st.modules.slots, m)
    ensures OwnsNothing(st, m)
  {
    forall i | 0 <= i < |st.shmems.slots|
      ensures m !in Members(st.shmems.slots[i].bits)
    {
      assert BlockOk(st.modules.slots, st.shmems.slots[i]);
    }
    forall i | 0 <= i < |st.sems.slots|
      ensures m !in Members(st.sems.slots[i].bits)
    {
      assert SemOk(st.modules.slots, st.sems.slots[i]);
    }
    forall i | 0 <= i < |st.fifos.slots|
      ensures st.fifos.slots[i].reader != m && st.fifos.slots[i].writer != m
    {
      assert FifoOk(st.modules.slots, st.fifos.slots[i]);
    }
    forall i | 0 <= i < |st.irqs.slots|
      ensures st.irqs.slots[i].owner != m
    {
      assert IrqOk(st.modules.slots, st.irqs.slots[i]);
    }
    forall i | 0 <= i < |st.tasks.slots|
      ensures !(TaskUsed(st.tasks.slots[i]) && st.tasks.slots[i].owner == m)
    {
      assert TaskOk(st.modules.slots, st.tasks.slots[i]);
    }
  }

  /** A newly registered module owns nothing. */
  lemma NewModuleOwnsNothing(st: State)
    requires Inv(st) && Init(st.modules).1.Done?
    ensures var (t, r) := Init(st.modules);
            IsLive(t.slots, r.id) && OwnsNothing(st.(modules := t), r.id)
  {
    UnusedIdOwnsNothing(st, Init(st.modules).1.id);
  }

  // ---------------------------------------------------------------------- exit

  lemma ReleaseTasks(mods: seq<bool>, t: Table<Task>, m: int)
    requires TasksOk(mods, t) && IsLive(mods, m)
    ensures TasksOk(mods[m := false], Released(t, ReleaseTask, TaskUsed, m, |t.slots|))
  {
    var t' := Released(t, ReleaseTask, TaskUsed, m, |t.slots|);
    forall i | 0 <= i < |t'.slots|
      ensures TaskOk(mods[m := false], t'.slots[i])
    {
      assert TaskOk(mods, t.slots[i]) && t'.slots[i] == ReleaseTask(t.slots[i], m);
    }
  }

  lemma ReleaseIrqs(mods: seq<bool>, t: Table<Irq>, m: int)
    requires IrqsOk(mods, t) && IsLive(mods, m)
    ensures IrqsOk(mods[m := false], Released(t, ReleaseIrq, IrqUsed, m, |t.slots|))
  {
    var t' := Released(t, ReleaseIrq, IrqUsed, m, |t.slots|);
    forall i | 0 <= i < |t'.slots|
      ensures IrqOk(mods[m := false], t'.slots[i])
    {
      assert IrqOk(mods, t.slots[i]) && t'.slots[i] == ReleaseIrq(t.slots[i], m);
    }
  }

  lemma ReleaseFifoOk(mods: seq<bool>, f: Fifo, m: int)
    requires FifoOk(mods, f) && IsLive(mods, m)
    ensures FifoOk(mods[m := false], ReleaseFifo(f, m))
    ensures ReleaseFifo(f, m).key == f.key || ReleaseFifo(f, m).key == 0
  {
    CloseFifoOk(mods, f, m);
  }

  lemma ReleaseFifos(mods: seq<bool>, t: Table<Fifo>, m: int)
    requires FifosOk(mods, t) && IsLive(mods, m)
    ensures FifosOk(mods[m := false], Released(t, ReleaseFifo, FifoUsed, m, |t.slots|))
  {
    var t' := Released(t, ReleaseFifo, FifoUsed, m, |t.slots|);
    forall i | 0 <= i < |t'.slots|
      ensures FifoOk(mods[m := false], t'.slots[i]) && (t'.slots[i].key == t.slots[i].key || t'.slots[i].key == 0)
    {
      ReleaseFifoOk(mods, t.slots[i], m);
    }
    assert !FifoUsed(t'.slots[0]);
  }

  lemma ReleaseBlockOk(mods: seq<bool>, b: Block, m: int)
    requires BlockOk(mods, b) && IsLive(mods, m)
    ensures BlockOk(mods[m := false], ReleaseBlock(b, m))
    ensures ReleaseBlock(b, m).key == b.key || ReleaseBlock(b, m).key == 0
    ensures Members(ReleaseBlock(b, m).bits) == Members(b.bits) - {m}
  {
    if TestBit(m, b.bits) {
      CloseBlockOk(mods, b, m);
    }
  }

  lemma ReleaseBlocks(mods: seq<bool>, t: Table<Block>, m: int)
    requires BlocksOk(mods, t) && IsLive(mods, m)
    ensures BlocksOk(mods[m := false], Released(t, ReleaseBlock, BlockUsed, m, |t.slots|))
  {
    var t' := Released(t, ReleaseBlock, BlockUsed, m, |t.slots|);
    forall i | 0 <= i < |t'.slots|
      ensures BlockOk(mods[m := false], t'.slots[i]) && (t'.slots[i].key == t.slots[i].key || t'.slots[i].key == 0)
    {
      assert BlockOk(mods, t.slots[i]);
      ReleaseBlockOk(mods, t.slots[i], m);
    }
  }

  lemma ReleaseSemOk(mods: seq<bool>, s: Sem, m: int)
    requires SemOk(mods, s) && IsLive(mods, m)
    ensures SemOk(mods[m := false], ReleaseSem(s, m))
    ensures ReleaseSem(s, m).key == s.key || ReleaseSem(s, m).key == 0
    ensures Members(ReleaseSem(s, m).bits) == Members(s.bits) - {m}
  {
    if TestBit(m, s.bits) {
      CloseSemOk(mods, s, m);
    }
  }

  lemma ReleaseSems(mods: seq<bool>, t: Table<Sem>, m: int)
    requires SemsOk(mods, t) && IsLive(mods, m)
    ensures SemsOk(mods[m := false], Released(t, ReleaseSem, SemUsed, m, |t.slots|))
  {
    var t' := Released(t, ReleaseSem, SemUsed, m, |t.slots|);
    forall i | 0 <= i < |t'.slots|
      ensures SemOk(mods[m := false], t'.slots[i]) && (t'.slots[i].key == t.slots[i].key || t'.slots[i].key == 0)
    {
      assert SemOk(mods, t.slots[i]);
      ReleaseSemOk(mods, t.slots[i], m);
    }
    assert SemOk(mods, t.slots[0]) && SemOk(mods[m := false], t'.slots[0]);
  }

  lemma ExitKeeps(st: State, m: int)
    requires Inv(st)
    ensures Inv(Exit(st, m).0)
  {
    var mods := st.modules.slots;
    if IsLive(mods, m) {
      SlotChange(st.modules, ModuleUsed, MAX_MODULES, m, false);
      ReleaseTasks(mods, st.tasks, m);
      ReleaseBlocks(mods, st.shmems, m);
      ReleaseSems(mods, st.sems, m);
      ReleaseFifos(mods, st.fifos, m);
      ReleaseIrqs(mods, st.irqs, m);
    }
  }

  /** Whatever module `k` owns, uses or holds in one state it has in the other, in the same slots. */
  ghost predicate Undisturbed(st: State, st': State, k: int) {
    && (forall i :: 0 <= i < |st.tasks.slots| && TaskUsed(st.tasks.slots[i]) && st.tasks.slots[i].owner == k ==>
          i < |st'.tasks.slots| && st'.tasks.slots[i] == st.tasks.slots[i])
    && (forall i :: 0 <= i < |st.shmems.slots| && k in Members(st.shmems.slots[i].bits) ==>
          && i < |st'.shmems.slots| && k in Members(st'.shmems.slots[i].bits)
          && st'.shmems.slots[i].key == st.shmems.slots[i].key && st'.shmems.slots[i].size == st.shmems.slots[i].size)
    && (forall i :: 0 <= i < |st.sems.slots| && k in Members(st.sems.slots[i].bits) ==>
          && i < |st'.sems.slots| && k in Members(st'.sems.slots[i].bits)
          && st'.sems.slots[i].key == st.sems.slots[i].key)
    && (forall i :: 0 <= i < |st.fifos.slots| && st.fifos.slots[i].reader == k ==>
          i < |st'.fifos.slots| && st'.fifos.slots[i].reader == k && st'.fifos.slots[i].key == st.fifos.slots[i].key)
    && (forall i :: 0 <= i < |st.fifos.slots| && st.fifos.slots[i].writer == k ==>
          i < |st'.fifos.slots| && st'.fifos.slots[i].writer == k && st'.fifos.slots[i].key == st.fifos.slots[i].key)
    && (forall i :: 0 <= i < |st.irqs.slots| && st.irqs.slots[i].owner == k ==>
          i < |st'.irqs.slots| && st'.irqs.slots[i] == st.irqs.slots[i])
  }

  lemma ReleaseBlockKeeps(mods: seq<bool>, b: Block, m: int, k: int)
    requires BlockOk(mods, b) && IsLive(mods, m) && k != m && k in Members(b.bits)
    ensures var b' := ReleaseBlock(b, m); k in Members(b'.bits) && b'.key == b.key && b'.size == b.size
  {
    ReleaseBlockOk(mods, b, m);
    assert |Members(ReleaseBlock(b, m).bits)| != 0;
  }

  lemma ReleaseSemKeeps(mods: seq<bool>, s: Sem, m: int, k: int)
    requires SemOk(mods, s) && IsLive(mods, m) && k != m && k in Members(s.bits)
    ensures var s' := ReleaseSem(s, m); k in Members(s'.bits) && s'.key == s.key
  {
    ReleaseSemOk(mods, s, m);
    assert |Members(ReleaseSem(s, m).bits)| != 0;
  }

  lemma ExitLeavesOthers(st: State, m: int, k: int)
    requires Inv(st) && IsLive(st.modules.slots, m) && k != m && k != 0
    ensures Undisturbed(st, Exit(st, m).0, k)
  {
    var mods, st' := st.modules.slots, Exit(st, m).0;
    forall i | 0 <= i < |st.shmems.slots| && k in Members(st.shmems.slots[i].bits)
      ensures k in Members(st'.shmems.slots[i].bits)
      ensures st'.shmems.slots[i].key == st.shmems.slots[i].key && st'.shmems.slots[i].size == st.shmems.slots[i].size
    {
      assert BlockOk(mods, st.shmems.slots[i]);
      ReleaseBlockKeeps(mods, st.shmems.slots[i], m, k);
    }
    forall i | 0 <= i < |st.sems.slots| && k in Members(st.sems.slots[i].bits)
      ensures k in Members(st'.sems.slots[i].bits) && st'.sems.slots[i].key == st.sems.slots[i].key
    {
      assert SemOk(mods, st.sems.slots[i]);
      ReleaseSemKeeps(mods, st.sems.slots[i], m, k);
    }
    forall i | 0 <= i < |st.fifos.slots|
      ensures FifoOk(mods, st.fifos.slots[i])
    {
    }
  }

  /** An exit leaves the module nothing and takes nothing from any other module. */
  lemma ExitExact(st: State, m: int)
    requires Inv(st) && Exit(st, m).1.Done?
    ensures var st' := Exit(st, m).0;
            && Inv(st') && !IsLive(st'.modules.slots, m) && OwnsNothing(st', m)
            && (forall k: int :: k != m ==> (IsLive(st'.modules.slots, k) <==> IsLive(st.modules.slots, k)))
            && (forall k: int :: k != m && k != 0 ==> Undisturbed(st, st', k))
  {
    var st' := Exit(st, m).0;
    ExitKeeps(st, m);
    UnusedIdOwnsNothing(st', m);
    forall k: int | k != m && k != 0
      ensures Undisturbed(st, st', k)
    {
      ExitLeavesOthers(st, m, k);
    }
  }

  // ---------------------------------------------------------------------- runs

  datatype Op =
    | InitOp
    | ExitOp(m: int)
    | TaskNewOp(prio: int, owner: int, kmalloc: bool, os: Os)
    | TaskDeleteOp(id: int)
    | TaskRunsOp(id: int, state: TaskState)
    | ShmemNewOp(key: int, m: int, size: nat, kmalloc: bool)
    | ShmemDeleteOp(id: int, m: int)
    | SemNewOp(key: int, m: int)
    | SemDeleteOp(id: int, m: int)
    | FifoNewOp(key: int, m: int, size: nat, mode: Mode, os: Os)
    | FifoDeleteOp(id: int, m: int)
    | IrqNewOp(num: int, owner: int, handler: bool, os: Os)
    | IrqDeleteOp(num: int, os: Os)

  ghost function Step(st: State, op: Op): (st': State)
    requires Inv(st)
    ensures Inv(st')
  {
    var mods := st.modules.slots;
    match op
    case InitOp => InitKeeps(st); st.(modules := Init(st.modules).0)
    case ExitOp(m) => ExitKeeps(st, m); Exit(st, m).0
    case TaskNewOp(prio, owner, kmalloc, os) =>
      TaskNewKeeps(mods, st.tasks, prio, owner, kmalloc, os);
      st.(tasks := TaskNew(mods, st.tasks, prio, owner, kmalloc, os).0)
    case TaskDeleteOp(id) => TaskDeleteKeeps(mods, st.tasks, id); st.(tasks := TaskDelete(st.tasks, id).0)
    case TaskRunsOp(id, state) =>
      if state.Empty? then st
      else TaskRunsKeeps(mods, st.tasks, id, state); st.(tasks := TaskRuns(st.tasks, id, state))
    case ShmemNewOp(key, m, size, kmalloc) =>
      ShmemNewKeeps(mods, st.shmems, key, m, size, kmalloc);
      st.(shmems := ShmemNew(mods, st.shmems, key, m, size, kmalloc).0)
    case ShmemDeleteOp(id, m) =>
      ShmemDeleteKeeps(mods, st.shmems, id, m);
      st.(shmems := ShmemDelete(mods, st.shmems, id, m).0)
    case SemNewOp(key, m) => SemNewKeeps(mods, st.sems, key, m); st.(sems := SemNew(mods, st.sems, key, m).0)
    case SemDeleteOp(id, m) => SemDeleteKeeps(mods, st.sems, id, m); st.(sems := SemDelete(mods, st.sems, id, m).0)
    case FifoNewOp(key, m, size, mode, os) =>
      FifoNewKeeps(mods, st.fifos, key, m, size, mode, os);
      st.(fifos := FifoNew(mods, st.fifos, key, m, size, mode, os).0)
    case FifoDeleteOp(id, m) =>
      FifoDeleteKeeps(mods, st.fifos, id, m);
      st.(fifos := FifoDelete(mods, st.fifos, id, m).0)
    case IrqNewOp(num, owner, handler, os) =>
      IrqNewKeeps(mods, st.irqs, num, owner, handler, os);
      st.(irqs := IrqNew(mods, st.irqs, num, owner, handler, os).0)
    case IrqDeleteOp(num, os) => IrqDeleteKeeps(mods, st.irqs, num, os); st.(irqs := IrqDelete(st.irqs, num, os).0)
  }

  lemma {:induction false} NoBits(i: nat)
    ensures !HasBit(0, i)
  {
    if i != 0 {
      NoBits(i - 1);
    }
  }

  lemma NoMembers(bits: Words)
    requires forall i :: 0 <= i < |bits| ==> bits[i] == 0
    ensures Members(bits) == {}
  {
    forall k: nat | k < LONG_BIT * |bits|
      ensures !TestBit(k, bits)
    {
      NoBits(k % LONG_BIT);
    }
  }

  lemma {:induction false} NoneUsed<T>(slots: seq<T>, used: T -> bool)
    requires forall i :: 0 <= i < |slots| ==> !used(slots[i])
    ensures Count(slots, used) == 0
  {
    if slots != [] {
      NoneUsed(slots[1..], used);
    }
  }

  lemma UniformOk<T>(x: T, used: T -> bool, max: nat)
    requires !used(x)
    ensures TableOk(Uniform(x, max), used, max)
  {
    NoneUsed(Uniform(x, max).slots, used);
  }

  lemma InitialBits(mods: seq<bool>)
    ensures BlocksOk(mods, Uniform(NO_BLOCK, MAX_SHMEMS)) && SemsOk(mods, Uniform(NO_SEM, MAX_SEMS))
  {
    NoMembers(NO_BLOCK.bits);
    NoMembers(NO_SEM.bits);
    UniformOk(NO_BLOCK, BlockUsed, MAX_SHMEMS);
    UniformOk(NO_SEM, SemUsed, MAX_SEMS);
    assert BlockOk(mods, NO_BLOCK) && SemOk(mods, NO_SEM);
  }

  lemma InitialOwners(mods: seq<bool>)
    ensures TasksOk(mods, Uniform(NO_TASK, MAX_TASKS))
    ensures FifosOk(mods, Uniform(NO_FIFO, MAX_FIFOS)) && IrqsOk(mods, Uniform(NO_IRQ, MAX_IRQS))
  {
    UniformOk(NO_TASK, TaskUsed, MAX_TASKS);
    UniformOk(NO_FIFO, FifoUsed, MAX_FIFOS);
    UniformOk(NO_IRQ, IrqUsed, MAX_IRQS);
    assert TaskOk(mods, NO_TASK) && FifoOk(mods, NO_FIFO) && IrqOk(mods, NO_IRQ);
  }

  lemma InitialOk()
    ensures Inv(InitialState())
  {
    var mods := InitialState().modules.slots;
    UniformOk(false, ModuleUsed, MAX_MODULES);
    InitialOwners(mods);
    InitialBits(mods);
  }

  /** The states a run of calls goes through. */
  ghost function Reached(ops: seq<Op>): (st: State)
    ensures Inv(st)
  {
    if ops == [] then InitialOk(); InitialState()
    else Step(Reached(ops[..|ops| - 1]), ops[|ops| - 1])
  }

  /** The slots of a table that are in use. */
  ghost function InUse<T>(slots: seq<T>, used: T -> bool): set<nat> {
    set i: nat | i < |slots| && used(slots[i])
  }

  lemma {:induction false} CountIsCardinality<T>(slots: seq<T>, used: T -> bool)
    ensures Count(slots, used) == |InUse(slots, used)|
  {
    if slots != [] {
      var n := |slots| - 1;
      CountLast(slots, used);
      CountIsCardinality(slots[..n], used);
      var rest := InUse(slots[..n], used);
      assert InUse(slots, used) == if used(slots[n]) then rest + {n} else rest;
    }
  }

  lemma {:induction false} CountLast<T>(slots: seq<T>, used: T -> bool)
    requires slots != []
    ensures Count(slots, used) == Count(slots[..|slots| - 1], used) + if used(slots[|slots| - 1]) then 1 else 0
  {
    if |slots| > 1 {
      CountLast(slots[1..], used);
      assert slots[1..][..|slots| - 2] == slots[..|slots| - 1][1..];
    }
  }

  /**
   In every state that calls can reach, the counts are the numbers of slots in use, user
   counts are the numbers of bits set, and a module that is not registered owns nothing.
   */
  lemma TablesSafety(ops: seq<Op>)
    ensures var st := Reached(ops);
            && st.modules.count == |InUse(st.modules.slots, ModuleUsed)| && st.tasks.count == |InUse(st.tasks.slots, TaskUsed)|
            && st.shmems.count == |InUse(st.shmems.slots, BlockUsed)| && st.sems.count == |InUse(st.sems.slots, SemUsed)|
            && st.fifos.count == |InUse(st.fifos.slots, FifoUsed)| && st.irqs.count == |InUse(st.irqs.slots, IrqUsed)|
            && (forall b :: b in st.shmems.slots ==> b.users == |Members(b.bits)|)
            && (forall s :: s in st.sems.slots ==> s.users == |Members(s.bits)|)
            && (forall m: int :: m != 0 && !IsLive(st.modules.slots, m) ==> OwnsNothing(st, m))
  {
    var st := Reached(ops);
    CountIsCardinality(st.modules.slots, ModuleUsed);
    CountIsCardinality(st.tasks.slots, TaskUsed);
    CountIsCardinality(st.shmems.slots, BlockUsed);
    CountIsCardinality(st.sems.slots, SemUsed);
    CountIsCardinality(st.fifos.slots, FifoUsed);
    CountIsCardinality(st.irqs.slots, IrqUsed);
    UsersAreMembers(st);
    forall m: int | m != 0 && !IsLive(st.modules.slots, m)
      ensures OwnsNothing(st, m)
    {
      UnusedIdOwnsNothing(st, m);
    }
  }

  lemma UsersAreMembers(st: State)
    requires Inv(st)
    ensures forall b :: b in st.shmems.slots ==> b.users == |Members(b.bits)|
    ensures forall s :: s in st.sems.slots ==> s.users == |Members(s.bits)|
  {
    forall b | b in st.shmems.slots
      ensures b.users == |Members(b.bits)|
    {
      assert BlockOk(st.modules.slots, b);
    }
    forall s | s in st.sems.slots
      ensures s.users == |Members(s.bits)|
    {
      assert SemOk(st.modules.slots, s);
    }
  }
}
