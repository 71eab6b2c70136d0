/**
 The resource tables of the RTAPI (src/rtapi/rtai_rtapi.c, src/rtapi/rtapi_common.h): which
 modules own tasks, shared memory, semaphores, fifos and interrupts.  Slot 0 of every table is
 never used.  Results of the operating system are parameters.
 */
module Rtapi {
  import opened Bitmap
  import opened Priority

  const MAX_MODULES: nat := 64
  const MAX_TASKS: nat := 64
  const MAX_SHMEMS: nat := 32
  const MAX_SEMS: nat := 64
  const MAX_FIFOS: nat := 32
  const MAX_IRQS: nat := 16

  /** `RTAPI_KEY` as a C `int`. */
  const RTAPI_KEY: int := 0x90280A48 - 0x1_0000_0000

  datatype Error = EINVAL | EMFILE | ENOMEM | EBUSY

  datatype Result = Done(id: int) | Err(e: Error)

  /** What the operating system answers. */
  datatype Os = OsOk | OsNoMem | OsBusy | OsFail

  datatype TaskState = Empty | Paused | Periodic | FreeRun | Ended

  datatype Task = Task(state: TaskState, prio: int, owner: int)

  datatype Block = Block(key: int, users: int, size: nat, bits: Words)

  datatype Sem = Sem(users: int, key: int, bits: Words)

  /** The two flags are the two bits of the fifo's state; with neither the slot is unused. */
  datatype Fifo = Fifo(hasReader: bool, hasWriter: bool, key: int, reader: int, writer: int, size: nat)

  datatype Irq = Irq(num: int, owner: int)

  datatype Mode = Read | Write

  /** The slots and the number of them in use, as the library keeps it. */
  datatype Table<T> = Table(slots: seq<T>, count: int)

  datatype State = State(
    modules: Table<bool>, tasks: Table<Task>, shmems: Table<Block>, sems: Table<Sem>,
    fifos: Table<Fifo>, irqs: Table<Irq>)

  // -------------------------------------------------------------------- tables

  function Count<T>(slots: seq<T>, used: T -> bool): (n: nat) {
    if slots == [] then 0 else (if used(slots[0]) then 1 else 0) + Count(slots[1..], used)
  }

  lemma {:induction false} CountUpdate<T>(slots: seq<T>, used: T -> bool, i: nat, x: T)
    requires i < |slots|
    ensures Count(slots[i := x], used) ==
            Count(slots, used) - (if used(slots[i]) then 1 else 0) + (if used(x) then 1 else 0)
  {
    if i == 0 {
      assert slots[i := x][1..] == slots[1..];
    } else {
      assert slots[i := x][1..] == slots[1..][i - 1 := x];
      CountUpdate(slots[1..], used, i - 1, x);
    }
  }

  /** The first slot from `n` on with a property, or the table's length: every search loop. */
  function First<T>(slots: seq<T>, p: T -> bool, n: nat): (i: nat)
    requires n <= |slots|
    ensures n <= i <= |slots|
    ensures i < |slots| ==> p(slots[i])
    ensures forall k :: n <= k < i ==> !p(slots[k])
    decreases |slots| - n
  {
    if n == |slots| || p(slots[n]) then n else First(slots, p, n + 1)
  }

  lemma {:induction false} FirstIs<T>(slots: seq<T>, p: T -> bool, n: nat, i: nat)
    requires n <= i <= |slots| && (i < |slots| ==> p(slots[i])) && forall k :: n <= k < i ==> !p(slots[k])
    ensures First(slots, p, n) == i
    decreases i - n
  {
    if n < i {
      FirstIs(slots, p, n + 1, i);
    }
  }

  /** The table has its size, slot 0 is free and the count is right. */
  ghost predicate TableOk<T>(t: Table<T>, used: T -> bool, max: nat) {
    |t.slots| == max + 1 && !used(t.slots[0]) && t.count == Count(t.slots, used)
  }

  lemma SlotChange<T>(t: Table<T>, used: T -> bool, max: nat, n: nat, x: T)
    requires TableOk(t, used, max) && 1 <= n <= max
    ensures TableOk(Table(t.slots[n := x],
                          t.count - (if used(t.slots[n]) then 1 else 0) + (if used(x) then 1 else 0)), used, max)
  {
    CountUpdate(t.slots, used, n, x);
  }

  // ------------------------------------------------------------------- modules

  predicate ModuleUsed(m: bool) { m }

  predicate ModuleFree(m: bool) { !m }

  predicate IsLive(mods: seq<bool>, id: int) { 1 <= id <= MAX_MODULES && id < |mods| && mods[id] }

  /** `rtapi_init`. */
  function Init(t: Table<bool>): (r: (Table<bool>, Result))
    requires |t.slots| == MAX_MODULES + 1
  {
    var n := First(t.slots, ModuleFree, 1);
    if n > MAX_MODULES then (t, Err(EMFILE)) else (Table(t.slots[n := true], t.count + 1), Done(n))
  }

  // --------------------------------------------------------------------- tasks

  predicate TaskUsed(t: Task) { !t.state.Empty? }

  predicate TaskFree(t: Task) { t.state.Empty? }

  const NO_TASK := Task(Empty, 0, 0)

  function TaskNew(mods: seq<bool>, t: Table<Task>, prio: int, owner: int, kmalloc: bool, os: Os)
    : (r: (Table<Task>, Result))
    requires |t.slots| == MAX_TASKS + 1
  {
    if !IsLive(mods, owner) then (t, Err(EINVAL))
    else
      var n := First(t.slots, TaskFree, 1);
      if n > MAX_TASKS then (t, Err(EMFILE))
      else if prio < PRIO_HIGHEST || prio > PRIO_LOWEST then (t, Err(EINVAL))
      else if !kmalloc then (t, Err(ENOMEM))
      else if !os.OsOk? then (t, Err(if os.OsNoMem? then ENOMEM else EINVAL))
      else (Table(t.slots[n := Task(Paused, prio, owner)], t.count + 1), Done(n))
  }

  function TaskDelete(t: Table<Task>, id: int): (r: (Table<Task>, Result))
    requires |t.slots| == MAX_TASKS + 1
  {
    if id < 1 || id > MAX_TASKS || t.slots[id].state.Empty? then (t, Err(EINVAL))
    else (Table(t.slots[id := NO_TASK], t.count - 1), Done(0))
  }

  /** Starting, pausing, resuming and ending a task changes its state to one that is not empty. */
  function TaskRuns(t: Table<Task>, id: int, state: TaskState): (t': Table<Task>)
    requires |t.slots| == MAX_TASKS + 1 && !state.Empty?
  {
    if id < 1 || id > MAX_TASKS || t.slots[id].state.Empty? then t
    else t.(slots := t.slots[id := t.slots[id].(state := state)])
  }

  // ------------------------------------------------------------- shared memory

  predicate BlockUsed(b: Block) { b.key != 0 }

  predicate BlockFree(b: Block) { b.key == 0 }

  function BlockKeyIs(key: int): Block -> bool { (b: Block) => b.key == key }

  predicate BitsOk(bits: Words) { |bits| * LONG_BIT > MAX_MODULES }

  /** The words of every slot can hold every module id. */
  ghost predicate BlocksSized(t: Table<Block>) {
    |t.slots| == MAX_SHMEMS + 1 && forall i :: 0 <= i < |t.slots| ==> BitsOk(t.slots[i].bits)
  }

  /** One more module uses an open block; `rtai_kmalloc` maps a block without kernel users. */
  function OpenBlock(b: Block, m: nat, size: nat, kmalloc: bool): (r: (Block, Result))
    requires BitsOk(b.bits) && m <= MAX_MODULES
  {
    if b.size < size then (b, Err(EINVAL))
    else if b.users == 0 && !kmalloc then (b, Err(ENOMEM))
    else if TestBit(m, b.bits) then (b, Err(EINVAL))
    else (b.(users := b.users + 1, bits := SetBit(m, b.bits)), Done(0))
  }

  ghost function ShmemNew(mods: seq<bool>, t: Table<Block>, key: int, m: int, size: nat, kmalloc: bool)
    : (r: (Table<Block>, Result))
    requires BlocksSized(t)
  {
    if key == 0 || key == RTAPI_KEY || !IsLive(mods, m) then (t, Err(EINVAL))
    else
      var n := First(t.slots, BlockKeyIs(key), 1);
      if n <= MAX_SHMEMS then
        var (b, r) := OpenBlock(t.slots[n], m, size, kmalloc);
        if r.Err? then (t, r) else (t.(slots := t.slots[n := b]), Done(n))
      else
        var n := First(t.slots, BlockFree, 1);
        if n > MAX_SHMEMS then (t, Err(EMFILE))
        else if !kmalloc then (t, Err(ENOMEM))
        else (Table(t.slots[n := Block(key, 1, size, SetBit(m, t.slots[n].bits))], t.count + 1), Done(n))
  }

  /** The module stops using a block that it uses; the last one frees it. */
  function CloseBlock(b: Block, m: nat): (b': Block)
    requires BitsOk(b.bits) && m <= MAX_MODULES
  {
    var left := b.(users := b.users - 1, bits := ClearBit(m, b.bits));
    if left.users > 0 then left else left.(key := 0, users := 0, size := 0)
  }

  ghost function ShmemDelete(mods: seq<bool>, t: Table<Block>, id: int, m: int): (r: (Table<Block>, Result))
    requires BlocksSized(t)
  {
    if id < 1 || id > MAX_SHMEMS || t.slots[id].key == 0 || !IsLive(mods, m) then (t, Err(EINVAL))
    else if !TestBit(m, t.slots[id].bits) then (t, Err(EINVAL))
    else
      var b := CloseBlock(t.slots[id], m);
      (Table(t.slots[id := b], if b.key == 0 then t.count - 1 else t.count), Done(0))
  }

  // ---------------------------------------------------------------- semaphores

  predicate SemUsed(s: Sem) { s.users != 0 }

  predicate SemFree(s: Sem) { s.users == 0 }

  function SemKeyIs(key: int): Sem -> bool { (s: Sem) => s.users > 0 && s.key == key }

  ghost predicate SemsSized(t: Table<Sem>) {
    |t.slots| == MAX_SEMS + 1 && forall i :: 0 <= i < |t.slots| ==> BitsOk(t.slots[i].bits)
  }

  ghost function SemNew(mods: seq<bool>, t: Table<Sem>, key: int, m: int): (r: (Table<Sem>, Result))
    requires SemsSized(t)
  {
    if key == 0 || !IsLive(mods, m) then (t, Err(EINVAL))
    else
      var n := First(t.slots, SemKeyIs(key), 1);
      if n <= MAX_SEMS then
        var s := t.slots[n];
        if TestBit(m, s.bits) then (t, Err(EINVAL))
        else (t.(slots := t.slots[n := s.(users := s.users + 1, bits := SetBit(m, s.bits))]), Done(n))
      else
        var n := First(t.slots, SemFree, 1);
        if n > MAX_SEMS then (t, Err(EMFILE))
        else (Table(t.slots[n := Sem(1, key, SetBit(m, t.slots[n].bits))], t.count + 1), Done(n))
  }

  function CloseSem(s: Sem, m: nat): (s': Sem)
    requires BitsOk(s.bits) && m <= MAX_MODULES
  {
    var left := s.(users := s.users - 1, bits := ClearBit(m, s.bits));
    if left.users > 0 then left else left.(users := 0, key := 0)
  }

  ghost function SemDelete(mods: seq<bool>, t: Table<Sem>, id: int, m: int): (r: (Table<Sem>, Result))
    requires SemsSized(t)
  {
    if id < 1 || id > MAX_SEMS || t.slots[id].users == 0 || !IsLive(mods, m) then (t, Err(EINVAL))
    else if !TestBit(m, t.slots[id].bits) then (t, Err(EINVAL))
    else
      var s := CloseSem(t.slots[id], m);
      (Table(t.slots[id := s], if s.users == 0 then t.count - 1 else t.count), Done(0))
  }

  // --------------------------------------------------------------------- fifos

  predicate FifoUsed(f: Fifo) { f.hasReader || f.hasWriter }

  predicate FifoFree(f: Fifo) { !FifoUsed(f) }

  function FifoKeyIs(key: int): Fifo -> bool { (f: Fifo) => FifoUsed(f) && f.key == key }

  function OpenFifo(f: Fifo, m: int, mode: Mode): (f': Fifo) {
    match mode
    case Read => f.(hasReader := true, reader := m)
    case Write => f.(hasWriter := true, writer := m)
  }

  function FifoNew(mods: seq<bool>, t: Table<Fifo>, key: int, m: int, size: nat, mode: Mode, os: Os)
    : (r: (Table<Fifo>, Result))
    requires |t.slots| == MAX_FIFOS + 1
  {
    if key == 0 || !IsLive(mods, m) then (t, Err(EINVAL))
    else
      var n := First(t.slots, FifoKeyIs(key), 1);
      if n <= MAX_FIFOS then
        var f := t.slots[n];
        if (if mode == Read then f.hasReader else f.hasWriter) then (t, Err(EBUSY))
        else (t.(slots := t.slots[n := OpenFifo(f, m, mode)]), Done(n))
      else
        var n := First(t.slots, FifoFree, 1);
        if n > MAX_FIFOS then (t, Err(EMFILE))
        else if !os.OsOk? then (t, Err(if os.OsNoMem? then ENOMEM else EINVAL))
        else (Table(t.slots[n := OpenFifo(t.slots[n], m, mode).(key := key, size := size)], t.count + 1), Done(n))
  }

  /** The module gives up whichever ends of the fifo it holds; the last one frees it. */
  function CloseFifo(f: Fifo, m: int): (f': Fifo) {
    var f1 := if f.reader == m then f.(hasReader := false, reader := 0) else f;
    var f2 := if f1.writer == m then f1.(hasWriter := false, writer := 0) else f1;
    if FifoUsed(f2) then f2 else f2.(key := 0, size := 0)
  }

  function FifoDelete(mods: seq<bool>, t: Table<Fifo>, id: int, m: int): (r: (Table<Fifo>, Result))
    requires |t.slots| == MAX_FIFOS + 1
  {
    if id < 1 || id > MAX_FIFOS || !FifoUsed(t.slots[id]) || !IsLive(mods, m) then (t, Err(EINVAL))
    else if t.slots[id].reader != m && t.slots[id].writer != m then (t, Err(EINVAL))
    else
      var f := CloseFifo(t.slots[id], m);
      (Table(t.slots[id := f], if FifoUsed(f) then t.count else t.count - 1), Done(0))
  }

  // ---------------------------------------------------------------- interrupts

  predicate IrqUsed(q: Irq) { q.num != 0 }

  predicate IrqFree(q: Irq) { q.num == 0 }

  function IrqNumIs(num: int): Irq -> bool { (q: Irq) => q.num == num }

  function IrqNew(mods: seq<bool>, t: Table<Irq>, num: int, owner: int, handler: bool, os: Os)
    : (r: (Table<Irq>, Result))
    requires |t.slots| == MAX_IRQS + 1
  {
    if num < 1 || num > 255 || !handler || !IsLive(mods, owner) then (t, Err(EINVAL))
    else if First(t.slots, IrqNumIs(num), 1) <= MAX_IRQS then (t, Err(EBUSY))
    else
      var n := First(t.slots, IrqFree, 1);
      if n > MAX_IRQS then (t, Err(EMFILE))
      else if !os.OsOk? then (t, Err(if os.OsBusy? then EBUSY else EINVAL))
      else (Table(t.slots[n := Irq(num, owner)], t.count + 1), Done(0))
  }

  function IrqDelete(t: Table<Irq>, num: int, os: Os): (r: (Table<Irq>, Result))
    requires |t.slots| == MAX_IRQS + 1
  {
    if num < 1 || num > 255 then (t, Err(EINVAL))
    else
      var n := First(t.slots, IrqNumIs(num), 1);
      if n > MAX_IRQS then (t, Err(EINVAL))
      else if !os.OsOk? then (t, Err(EINVAL))
      else (Table(t.slots[n := NO_IRQ], t.count - 1), Done(0))
  }

  // ---------------------------------------------------------------------- exit

  /** What an exiting module leaves of one slot of each table. */
  function ReleaseTask(t: Task, m: int): (t': Task) { if !t.state.Empty? && t.owner == m then NO_TASK else t }

  function ReleaseBlock(b: Block, m: int): (b': Block) {
    if BitsOk(b.bits) && 1 <= m <= MAX_MODULES && TestBit(m, b.bits) then CloseBlock(b, m) else b
  }

  function ReleaseSem(s: Sem, m: int): (s': Sem) {
    if BitsOk(s.bits) && 1 <= m <= MAX_MODULES && TestBit(m, s.bits) then CloseSem(s, m) else s
  }

  function ReleaseFifo(f: Fifo, m: int): (f': Fifo) {
    if f.reader == m || f.writer == m then CloseFifo(f, m) else f
  }

  function ReleaseIrq(q: Irq, m: int): (q': Irq) { if q.owner == m then NO_IRQ else q }

  /** The first `n` slots released, and the number of slots in use recounted. */
  function Released<T>(t: Table<T>, release: (T, int) -> T, used: T -> bool, m: int, n: nat): (t': Table<T>)
    ensures |t'.slots| == |t.slots| && t'.count == Count(t'.slots, used)
    ensures forall i :: 0 <= i < |t'.slots| ==> t'.slots[i] == if i < n then release(t.slots[i], m) else t.slots[i]
  {
    var slots := seq(|t.slots|, i requires 0 <= i < |t.slots| => if i < n then release(t.slots[i], m) else t.slots[i]);
    Table(slots, Count(slots, used))
  }

  /** `rtapi_exit`, given that the operating system releases what it is told to. */
  function Exit(st: State, m: int): (r: (State, Result)) {
    if !IsLive(st.modules.slots, m) then (st, Err(EINVAL))
    else
      (State(Table(st.modules.slots[m := false], st.modules.count - 1),
             Released(st.tasks, ReleaseTask, TaskUsed, m, |st.tasks.slots|),
             Released(st.shmems, ReleaseBlock, BlockUsed, m, |st.shmems.slots|),
             Released(st.sems, ReleaseSem, SemUsed, m, |st.sems.slots|),
             Released(st.fifos, ReleaseFifo, FifoUsed, m, |st.fifos.slots|),
             Released(st.irqs, ReleaseIrq, IrqUsed, m, |st.irqs.slots|)),
       Done(0))
  }

  /** A table of equal slots. */
  function Uniform<T>(x: T, max: nat): (t: Table<T>) { Table(seq(max + 1, _ => x), 0) }

  const NO_BLOCK := Block(0, 0, 0, [0, 0, 0, 0, 0])
  const NO_SEM := Sem(0, 0, [0, 0, 0, 0, 0, 0, 0, 0, 0])
  const NO_FIFO := Fifo(false, false, 0, 0, 0, 0)
  const NO_IRQ := Irq(0, 0)

  /** `init_rtapi_data`. */
  function InitialState(): (st: State) {
    State(Uniform(false, MAX_MODULES), Uniform(NO_TASK, MAX_TASKS), Uniform(NO_BLOCK, MAX_SHMEMS),
          Uniform(NO_SEM, MAX_SEMS), Uniform(NO_FIFO, MAX_FIFOS), Uniform(NO_IRQ, MAX_IRQS))
  }
}
