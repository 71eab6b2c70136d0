/**
 The RTAPI resource tables as the library keeps them (src/rtapi/rtai_rtapi.c): fixed arrays
 searched by loops and updated in place.  Every call is proved to do to its table what the
 function of the same name in `Rtapi` does.
 */
module RtapiTables {
  import opened Bitmap
  import opened Priority
  import opened Rtapi
  import opened RtapiProofs

  /** Every search loop: the first slot from 1 on with a property, or the length. */
  method FindFirst<T>(a: array<T>, p: T -> bool) returns (n: nat)
    requires a.Length >= 1
    ensures n == First(a[..], p, 1)
  {
    n := 1;
    while n < a.Length && !p(a[n])
      invariant 1 <= n <= a.Length
      invariant forall k :: 1 <= k < n ==> !p(a[k])
    {
      n := n + 1;
    }
    FirstIs(a[..], p, 1, n);
  }

  /** One table's loop in `init_rtapi_data`. */
  method NewSlots<T>(x: T, max: nat) returns (a: array<T>)
    ensures fresh(a) && a[..] == Uniform(x, max).slots
  {
    a := new T[max + 1](_ => x);
    assert a[..] == Uniform(x, max).slots;
  }

  /** Before the loop of an exit: slot 0 has nothing to release. */
  lemma ReleasedFirst<T>(t: Table<T>, release: (T, int) -> T, used: T -> bool, m: int)
    requires t.slots != [] && release(t.slots[0], m) == t.slots[0] && t.count == Count(t.slots, used)
    ensures t == Released(t, release, used, m, 1)
  {
    assert t.slots == Released(t, release, used, m, 1).slots;
  }

  /** One turn of the loop of an exit. */
  lemma ReleasedNext<T>(t: Table<T>, release: (T, int) -> T, used: T -> bool, m: int, n: nat, t': Table<T>)
    requires n < |t.slots| && t'.count == Count(t'.slots, used)
    requires t'.slots == Released(t, release, used, m, n).slots[n := release(t.slots[n], m)]
    ensures t' == Released(t, release, used, m, n + 1)
  {
    assert t'.slots == Released(t, release, used, m, n + 1).slots;
  }

  class Tables {
    const modules: array<bool>
    const tasks: array<Task>
    const shmems: array<Block>
    const sems: array<Sem>
    const fifos: array<Fifo>
    const irqs: array<Irq>
    var moduleCount: int
    var taskCount: int
    var shmemCount: int
    var semCount: int
    var fifoCount: int
    var irqCount: int

    ghost function TaskTable(): Table<Task>
      reads this, tasks
    {
      Table(tasks[..], taskCount)
    }

    ghost function ShmemTable(): Table<Block>
      reads this, shmems
    {
      Table(shmems[..], shmemCount)
    }

    ghost function SemTable(): Table<Sem>
      reads this, sems
    {
      Table(sems[..], semCount)
    }

    ghost function FifoTable(): Table<Fifo>
      reads this, fifos
    {
      Table(fifos[..], fifoCount)
    }

    ghost function IrqTable(): Table<Irq>
      reads this, irqs
    {
      Table(irqs[..], irqCount)
    }

    ghost function Abs(): State
      reads this, modules, tasks, shmems, sems, fifos, irqs
    {
      State(Table(modules[..], moduleCount), TaskTable(), ShmemTable(), SemTable(), FifoTable(), IrqTable())
    }

    ghost predicate Valid()
      reads this, modules, tasks, shmems, sems, fifos, irqs
    {
      Inv(Abs())
    }

    /** `init_rtapi_data`. */
    constructor ()
      ensures Valid() && Abs() == InitialState()
      ensures fresh(modules) && fresh(tasks) && fresh(shmems) && fresh(sems) && fresh(fifos) && fresh(irqs)
    {
      var ms := NewSlots(false, MAX_MODULES);
      var ts := NewSlots(NO_TASK, MAX_TASKS);
      var bs := NewSlots(NO_BLOCK, MAX_SHMEMS);
      var ss := NewSlots(NO_SEM, MAX_SEMS);
      var fs := NewSlots(NO_FIFO, MAX_FIFOS);
      var qs := NewSlots(NO_IRQ, MAX_IRQS);
      modules, tasks, shmems, sems, fifos, irqs := ms, ts, bs, ss, fs, qs;
      moduleCount, taskCount, shmemCount, semCount, fifoCount, irqCount := 0, 0, 0, 0, 0, 0;
      new;
      InitialOk();
    }

    /** `rtapi_init`. */
    method ModuleInit() returns (r: Result)
      requires Valid()
      modifies this`moduleCount, modules
      ensures Valid() && (Abs().modules, r) == Init(old(Abs()).modules)
      ensures Abs() == old(Abs()).(modules := Abs().modules)
    {
      InitKeeps(Abs());
      var n := FindFirst(modules, ModuleFree);
      if n > MAX_MODULES {
        return Err(EMFILE);
      }
      modules[n] := true;
      moduleCount := moduleCount + 1;
      return Done(n);
    }

    method IsLiveModule(m: int) returns (live: bool)
      requires modules.Length == MAX_MODULES + 1
      ensures live <==> IsLive(modules[..], m)
    {
      live := 1 <= m <= MAX_MODULES && modules[m];
    }

    // ------------------------------------------------------------------- tasks

    /** `rtapi_task_new`. */
    method TaskNew(prio: int, owner: int, kmalloc: bool, os: Os) returns (r: Result)
      requires modules.Length == MAX_MODULES + 1 && TasksOk(modules[..], TaskTable())
      modifies this`taskCount, tasks
      ensures TasksOk(modules[..], TaskTable())
      ensures (TaskTable(), r) == Rtapi.TaskNew(modules[..], old(TaskTable()), prio, owner, kmalloc, os)
    {
      TaskNewKeeps(modules[..], TaskTable(), prio, owner, kmalloc, os);
      var live := IsLiveModule(owner);
      if !live {
        return Err(EINVAL);
      }
      var n := FindFirst(tasks, TaskFree);
      if n > MAX_TASKS {
        return Err(EMFILE);
      }
      if prio < PRIO_HIGHEST || prio > PRIO_LOWEST {
        return Err(EINVAL);
      }
      if !kmalloc {
        return Err(ENOMEM);
      }
      if !os.OsOk? {
        return Err(if os.OsNoMem? then ENOMEM else EINVAL);
      }
      tasks[n] := Task(Paused, prio, owner);
      taskCount := taskCount + 1;
      return Done(n);
    }

    /** `task_delete`. */
    method TaskDelete(id: int) returns (r: Result)
      requires TasksOk(modules[..], TaskTable())
      modifies this`taskCount, tasks
      ensures TasksOk(modules[..], TaskTable())
      ensures (TaskTable(), r) == Rtapi.TaskDelete(old(TaskTable()), id)
    {
      TaskDeleteKeeps(modules[..], TaskTable(), id);
      if id < 1 || id > MAX_TASKS {
        return Err(EINVAL);
      }
      if tasks[id].state.Empty? {
        return Err(EINVAL);
      }
      tasks[id] := NO_TASK;
      taskCount := taskCount - 1;
      return Done(0);
    }

    /** The task loop of `module_delete`. */
    method ReleaseTasks(m: int)
      requires TasksOk(modules[..], TaskTable()) && IsLive(modules[..], m)
      modifies this`taskCount, tasks
      ensures TaskTable() == Released(old(TaskTable()), ReleaseTask, TaskUsed, m, tasks.Length)
    {
      ghost var t := TaskTable();
      ReleasedFirst(t, ReleaseTask, TaskUsed, m);
      for n := 1 to MAX_TASKS + 1
        invariant TasksOk(modules[..], TaskTable())
        invariant TaskTable() == Released(t, ReleaseTask, TaskUsed, m, n)
      {
        if !tasks[n].state.Empty? && tasks[n].owner == m {
          var _ := TaskDelete(n);
        }
        ReleasedNext(t, ReleaseTask, TaskUsed, m, n, TaskTable());
      }
    }
  
    // ----------------------------------------------------------- shared memory

    /** `rtapi_shmem_new`. */
    method ShmemNew(key: int, m: int, size: nat, kmalloc: bool) returns (r: Result)
      requires modules.Length == MAX_MODULES + 1 && BlocksOk(modules[..], ShmemTable()) && BlocksSized(ShmemTable())
      modifies this`shmemCount, shmems
      ensures BlocksOk(modules[..], ShmemTable())
      ensures (ShmemTable(), r) == Rtapi.ShmemNew(modules[..], old(ShmemTable()), key, m, size, kmalloc)
    {
      ShmemNewKeeps(modules[..], ShmemTable(), key, m, size, kmalloc);
      r := OpenShmem(key, m, size, kmalloc);
    }

    method OpenShmem(key: int, m: int, size: nat, kmalloc: bool) returns (r: Result)
      requires modules.Length == MAX_MODULES + 1 && BlocksSized(ShmemTable())
      modifies this`shmemCount, shmems
      ensures (ShmemTable(), r) == Rtapi.ShmemNew(modules[..], old(ShmemTable()), key, m, size, kmalloc)
    {
      var live := IsLiveModule(m);
      if key == 0 || key == RTAPI_KEY || !live {
        return Err(EINVAL);
      }
      var n := FindFirst(shmems, BlockKeyIs(key));
      if n <= MAX_SHMEMS {
        if shmems[n].size < size {
          return Err(EINVAL);
        }
        if shmems[n].users == 0 && !kmalloc {
          return Err(ENOMEM);
        }
        if TestBit(m, shmems[n].bits) {
          return Err(EINVAL);
        }
        shmems[n] := shmems[n].(users := shmems[n].users + 1, bits := SetBit(m, shmems[n].bits));
        return Done(n);
      }
      n := FindFirst(shmems, BlockFree);
      if n > MAX_SHMEMS {
        return Err(EMFILE);
      }
      if !kmalloc {
        return Err(ENOMEM);
      }
      shmems[n] := Block(key, 1, size, SetBit(m, shmems[n].bits));
      shmemCount := shmemCount + 1;
      return Done(n);
    }

    /** `shmem_delete`; no user process uses the block. */
    method ShmemDelete(id: int, m: int) returns (r: Result)
      requires modules.Length == MAX_MODULES + 1 && BlocksOk(modules[..], ShmemTable()) && BlocksSized(ShmemTable())
      modifies this`shmemCount, shmems
      ensures BlocksOk(modules[..], ShmemTable()) && BlocksSized(ShmemTable())
      ensures (ShmemTable(), r) == Rtapi.ShmemDelete(modules[..], old(ShmemTable()), id, m)
    {
      ShmemDeleteKeeps(modules[..], ShmemTable(), id, m);
      var live := IsLiveModule(m);
      if id < 1 || id > MAX_SHMEMS || shmems[id].key == 0 || !live {
        return Err(EINVAL);
      }
      if !TestBit(m, shmems[id].bits) {
        return Err(EINVAL);
      }
      var b := shmems[id].(users := shmems[id].users - 1, bits := ClearBit(m, shmems[id].bits));
      if b.users > 0 {
        shmems[id] := b;
        return Done(0);
      }
      shmems[id] := b.(users := 0, key := 0, size := 0);
      shmemCount := shmemCount - 1;
      return Done(0);
    }

    /** The shared memory loop of `module_delete`. */
    method ReleaseBlocks(m: int)
      requires modules.Length == MAX_MODULES + 1 && BlocksOk(modules[..], ShmemTable()) && BlocksSized(ShmemTable())
      requires IsLive(modules[..], m)
      modifies this`shmemCount, shmems
      ensures ShmemTable() == Released(old(ShmemTable()), ReleaseBlock, BlockUsed, m, shmems.Length)
    {
      ghost var t := ShmemTable();
      assert BlockOk(modules[..], t.slots[0]);
      NoUsers(modules[..], t.slots[0].users, t.slots[0].bits, m);
      ReleasedFirst(t, ReleaseBlock, BlockUsed, m);
      for n := 1 to MAX_SHMEMS + 1
        invariant BlocksOk(modules[..], ShmemTable()) && BlocksSized(ShmemTable())
        invariant ShmemTable() == Released(t, ReleaseBlock, BlockUsed, m, n)
      {
        if TestBit(m, shmems[n].bits) {
          CloseBlockOk(modules[..], shmems[n], m);
          var _ := ShmemDelete(n, m);
        }
        ReleasedNext(t, ReleaseBlock, BlockUsed, m, n, ShmemTable());
      }
    }

    // -------------------------------------------------------------- semaphores

    /** `rtapi_sem_new`. */
    method SemNew(key: int, m: int) returns (r: Result)
      requires modules.Length == MAX_MODULES + 1 && SemsOk(modules[..], SemTable()) && SemsSized(SemTable())
      modifies this`semCount, sems
      ensures SemsOk(modules[..], SemTable())
      ensures (SemTable(), r) == Rtapi.SemNew(modules[..], old(SemTable()), key, m)
    {
      SemNewKeeps(modules[..], SemTable(), key, m);
      r := OpenSem(key, m);
    }

    method OpenSem(key: int, m: int) returns (r: Result)
      requires modules.Length == MAX_MODULES + 1 && SemsSized(SemTable())
      modifies this`semCount, sems
      ensures (SemTable(), r) == Rtapi.SemNew(modules[..], old(SemTable()), key, m)
    {
      var live := IsLiveModule(m);
      if key == 0 || !live {
        return Err(EINVAL);
      }
      var n := FindFirst(sems, SemKeyIs(key));
      if n <= MAX_SEMS {
        if TestBit(m, sems[n].bits) {
          return Err(EINVAL);
        }
        sems[n] := sems[n].(users := sems[n].users + 1, bits := SetBit(m, sems[n].bits));
        return Done(n);
      }
      n := FindFirst(sems, SemFree);
      if n > MAX_SEMS {
        return Err(EMFILE);
      }
      sems[n] := Sem(1, key, SetBit(m, sems[n].bits));
      semCount := semCount + 1;
      return Done(n);
    }

    /** `sem_delete`. */
    method SemDelete(id: int, m: int) returns (r: Result)
      requires modules.Length == MAX_MODULES + 1 && SemsOk(modules[..], SemTable()) && SemsSized(SemTable())
      modifies this`semCount, sems
      ensures SemsOk(modules[..], SemTable()) && SemsSized(SemTable())
      ensures (SemTable(), r) == Rtapi.SemDelete(modules[..], old(SemTable()), id, m)
    {
      SemDeleteKeeps(modules[..], SemTable(), id, m);
      var live := IsLiveModule(m);
      if id < 1 || id > MAX_SEMS || sems[id].users == 0 || !live {
        return Err(EINVAL);
      }
      if !TestBit(m, sems[id].bits) {
        return Err(EINVAL);
      }
      var s := sems[id].(users := sems[id].users - 1, bits := ClearBit(m, sems[id].bits));
      if s.users > 0 {
        sems[id] := s;
        return Done(0);
      }
      sems[id] := s.(users := 0, key := 0);
      semCount := semCount - 1;
      return Done(0);
    }

    /** The semaphore loop of `module_delete`. */
    method ReleaseSems(m: int)
      requires modules.Length == MAX_MODULES + 1 && SemsOk(modules[..], SemTable()) && SemsSized(SemTable())
      requires IsLive(modules[..], m)
      modifies this`semCount, sems
      ensures SemTable() == Released(old(SemTable()), ReleaseSem, SemUsed, m, sems.Length)
    {
      ghost var t := SemTable();
      assert SemOk(modules[..], t.slots[0]);
      NoUsers(modules[..], t.slots[0].users, t.slots[0].bits, m);
      ReleasedFirst(t, ReleaseSem, SemUsed, m);
      for n := 1 to MAX_SEMS + 1
        invariant SemsOk(modules[..], SemTable()) && SemsSized(SemTable())
        invariant SemTable() == Released(t, ReleaseSem, SemUsed, m, n)
      {
        if TestBit(m, sems[n].bits) {
          CloseSemOk(modules[..], sems[n], m);
          var _ := SemDelete(n, m);
        }
        ReleasedNext(t, ReleaseSem, SemUsed, m, n, SemTable());
      }
    }

    // ------------------------------------------------------------------- fifos

    /** `rtapi_fifo_new`. */
    method FifoNew(key: int, m: int, size: nat, mode: Mode, os: Os) returns (r: Result)
      requires modules.Length == MAX_MODULES + 1 && FifosOk(modules[..], FifoTable())
      modifies this`fifoCount, fifos
      ensures FifosOk(modules[..], FifoTable())
      ensures (FifoTable(), r) == Rtapi.FifoNew(modules[..], old(FifoTable()), key, m, size, mode, os)
    {
      FifoNewKeeps(modules[..], FifoTable(), key, m, size, mode, os);
      var live := IsLiveModule(m);
      if key == 0 || !live {
        return Err(EINVAL);
      }
      var n := FindFirst(fifos, FifoKeyIs(key));
      if n <= MAX_FIFOS {
        if (if mode == Read then fifos[n].hasReader else fifos[n].hasWriter) {
          return Err(EBUSY);
        }
        fifos[n] := OpenFifo(fifos[n], m, mode);
        return Done(n);
      }
      n := FindFirst(fifos, FifoFree);
      if n > MAX_FIFOS {
        return Err(EMFILE);
      }
      if !os.OsOk? {
        return Err(if os.OsNoMem? then ENOMEM else EINVAL);
      }
      fifos[n] := OpenFifo(fifos[n], m, mode).(key := key, size := size);
      fifoCount := fifoCount + 1;
      return Done(n);
    }

    /** `fifo_delete`. */
    method FifoDelete(id: int, m: int) returns (r: Result)
      requires modules.Length == MAX_MODULES + 1 && FifosOk(modules[..], FifoTable())
      modifies this`fifoCount, fifos
      ensures FifosOk(modules[..], FifoTable())
      ensures (FifoTable(), r) == Rtapi.FifoDelete(modules[..], old(FifoTable()), id, m)
    {
      FifoDeleteKeeps(modules[..], FifoTable(), id, m);
      var live := IsLiveModule(m);
      if id < 1 || id > MAX_FIFOS || !FifoUsed(fifos[id]) || !live {
        return Err(EINVAL);
      }
      if fifos[id].reader != m && fifos[id].writer != m {
        return Err(EINVAL);
      }
      var f := fifos[id];
      if f.reader == m {
        f := f.(hasReader := false, reader := 0);
      }
      if f.writer == m {
        f := f.(hasWriter := false, writer := 0);
      }
      if FifoUsed(f) {
        fifos[id] := f;
        return Done(0);
      }
      fifos[id] := f.(key := 0, size := 0);
      fifoCount := fifoCount - 1;
      return Done(0);
    }

    /** The fifo loop of `module_delete`. */
    method ReleaseFifos(m: int)
      requires modules.Length == MAX_MODULES + 1 && FifosOk(modules[..], FifoTable())
      requires IsLive(modules[..], m)
      modifies this`fifoCount, fifos
      ensures FifoTable() == Released(old(FifoTable()), ReleaseFifo, FifoUsed, m, fifos.Length)
    {
      ghost var t := FifoTable();
      assert FifoOk(modules[..], t.slots[0]);
      ReleasedFirst(t, ReleaseFifo, FifoUsed, m);
      for n := 1 to MAX_FIFOS + 1
        invariant FifosOk(modules[..], FifoTable())
        invariant FifoTable() == Released(t, ReleaseFifo, FifoUsed, m, n)
      {
        assert FifoOk(modules[..], FifoTable().slots[n]);
        if fifos[n].reader == m || fifos[n].writer == m {
          var _ := FifoDelete(n, m);
        }
        ReleasedNext(t, ReleaseFifo, FifoUsed, m, n, FifoTable());
      }
    }

    // -------------------------------------------------------------- interrupts

    /** `rtapi_irq_new`. */
    method IrqNew(num: int, owner: int, handler: bool, os: Os) returns (r: Result)
      requires modules.Length == MAX_MODULES + 1 && IrqsOk(modules[..], IrqTable())
      modifies this`irqCount, irqs
      ensures IrqsOk(modules[..], IrqTable())
      ensures (IrqTable(), r) == Rtapi.IrqNew(modules[..], old(IrqTable()), num, owner, handler, os)
    {
      IrqNewKeeps(modules[..], IrqTable(), num, owner, handler, os);
      var live := IsLiveModule(owner);
      if num < 1 || num > 255 || !handler || !live {
        return Err(EINVAL);
      }
      var n := FindFirst(irqs, IrqNumIs(num));
      if n <= MAX_IRQS {
        return Err(EBUSY);
      }
      n := FindFirst(irqs, IrqFree);
      if n > MAX_IRQS {
        return Err(EMFILE);
      }
      if !os.OsOk? {
        return Err(if os.OsBusy? then EBUSY else EINVAL);
      }
      irqs[n] := Irq(num, owner);
      irqCount := irqCount + 1;
      return Done(0);
    }

    /** `irq_delete`. */
    method IrqDelete(num: int, os: Os) returns (r: Result)
      requires IrqsOk(modules[..], IrqTable())
      modifies this`irqCount, irqs
      ensures IrqsOk(modules[..], IrqTable())
      ensures (IrqTable(), r) == Rtapi.IrqDelete(old(IrqTable()), num, os)
    {
      IrqDeleteKeeps(modules[..], IrqTable(), num, os);
      if num < 1 || num > 255 {
        return Err(EINVAL);
      }
      var n := FindFirst(irqs, IrqNumIs(num));
      if n > MAX_IRQS {
        return Err(EINVAL);
      }
      if !os.OsOk? {
        return Err(EINVAL);
      }
      irqs[n] := NO_IRQ;
      irqCount := irqCount - 1;
      return Done(0);
    }

    /** The interrupt loop of `module_delete`, given that the operating system lets every handler go. */
    method ReleaseIrqs(m: int)
      requires modules.Length == MAX_MODULES + 1 && IrqsOk(modules[..], IrqTable())
      requires IsLive(modules[..], m)
      modifies this`irqCount, irqs
      ensures IrqTable() == Released(old(IrqTable()), ReleaseIrq, IrqUsed, m, irqs.Length)
    {
      ghost var t := IrqTable();
      assert IrqOk(modules[..], t.slots[0]);
      ReleasedFirst(t, ReleaseIrq, IrqUsed, m);
      for n := 1 to MAX_IRQS + 1
        invariant IrqsOk(modules[..], IrqTable())
        invariant IrqTable() == Released(t, ReleaseIrq, IrqUsed, m, n)
      {
        assert IrqOk(modules[..], IrqTable().slots[n]);
        if irqs[n].owner == m {
          FirstIs(irqs[..], IrqNumIs(irqs[n].num), 1, n);
          var _ := IrqDelete(irqs[n].num, OsOk);
        }
        ReleasedNext(t, ReleaseIrq, IrqUsed, m, n, IrqTable());
      }
    }

    // -------------------------------------------------------------------- exit

    /** The five loops of `module_delete`. */
    method ReleaseAll(m: int)
      requires Valid() && IsLive(modules[..], m)
      modifies this`taskCount, this`shmemCount, this`semCount, this`fifoCount, this`irqCount
      modifies tasks, shmems, sems, fifos, irqs
      ensures Abs() == Exit(old(Abs()), m).0.(modules := old(Abs()).modules)
    {
      SizedTables(Abs());
      ReleaseTasks(m);
      ReleaseBlocks(m);
      ReleaseSems(m);
      ReleaseFifos(m);
      ReleaseIrqs(m);
    }

    /** `rtapi_exit`, that is `module_delete`. */
    method ModuleExit(m: int) returns (r: Result)
      requires Valid()
      modifies this, modules, tasks, shmems, sems, fifos, irqs
      ensures Valid() && (Abs(), r) == Exit(old(Abs()), m)
    {
      ExitKeeps(Abs(), m);
      var live := IsLiveModule(m);
      if !live {
        return Err(EINVAL);
      }
      ReleaseAll(m);
      modules[m] := false;
      moduleCount := moduleCount - 1;
      return Done(0);
    }
  }

  lemma SizedTables(st: State)
    requires Inv(st)
    ensures BlocksSized(st.shmems) && SemsSized(st.sems)
  {
    assert forall i :: 0 <= i < |st.shmems.slots| ==> BlockOk(st.modules.slots, st.shmems.slots[i]);
    assert forall i :: 0 <= i < |st.sems.slots| ==> SemOk(st.modules.slots, st.sems.slots[i]);
  }
}
