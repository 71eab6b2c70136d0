# LinuxCNC HAL and RTAPI: a verified model

This project models the shared-memory core of LinuxCNC's Hardware Abstraction Layer (HAL),
the resource tables of its real-time interface (RTAPI) and two small neighbours, and proves
what their code promises. `dafny verify dfyconfig.toml` checks all of it.

## What is modelled

**HAL ports** (`Ring`, `Port`, `PortProtocol`, `PortCalls`). A byte ring with one slot kept empty, one reader
and one writer. `HalPort` has the calls as methods of a class over an array, proved against a
bounded queue of bytes. `PortProtocol` has them as an interleaving of atomic steps (load an
index, copy a byte, publish an index), so each side may work from an index that the other has
since moved. Where the code differs from a queue, that is a result: a write that loads the read
index 0 and asks for exactly the writable space publishes position 0. If the reader has not moved
by then the port ends up empty; if it has, the reader is handed the bytes written and one more byte
that nobody wrote. Every theorem about what a write does to the queue is an equivalence with that
condition as the other side. `PortCalls` says what a call of either side does whatever the other does
meanwhile: when it goes ahead, which bytes it takes or adds, and that it comes to an end.

**HAL streams** (`Stream`, `StreamProtocol`, `StreamCalls`). The same kind of ring over fixed-size records
with sample numbers. `hal_stream_depth` is one too small exactly when the queue wraps round; its method
says so, and a run of three calls shows it.

**Shared memory** (`Shmem`). The two-ended allocator, with alignment, over every sequence of
requests.

**Pins, signals and components** (`Lists`, `Names`, `Hal`, `HalInv`, `HalOps`, `HalResults`,
`HalLinks`, `HalPins`, `HalPinRuns`, `HalAlias`, `HalStale`, `HalAliasRuns`, `HalRuns`, `LinkedList`,
`HalDb`). Two levels. `Hal` says what
each call does to the name-sorted lists, the free lists, the structures and the values, as functions
on a state made of sequences and maps; the invariant and the theorems over all runs are about these
functions. Memory that anything else takes from the same area, and old-name structures that
parameters take from the same free list, are steps of the runs too. `HalDb` has the calls as the
library writes them: list heads, free-list heads and `next_ptr` fields, changed by walking the lists;
each method is proved to do what the function of the same name in `Hal` does.

`HalLinks` and `HalPins` say of each call exactly when it succeeds and what becomes of its arguments, in
terms of what a caller can see: who may join a signal is said by the pins on it, and whose pin a pin is by
the exit that takes it. `HalPinRuns` says so of every pin of every run.

Aliases have results of their own. A pin or a parameter gives its old-name structure back when it is
freed (`free_pin_struct`, `free_param_struct`), but the freed structure keeps the reference, and the next
pin or parameter built on it takes that over. So the ownership of saved names survives every call except
exactly two kinds: the exit of a component that owns an aliased pin, and the freeing of an aliased
parameter. Whatever else is called between an alias and its removal, other than the exit of the pin's
own component, the removal gives the pin the name it was created with and puts it behind every pin that
bears that name by then; its order among the pins that are still there is restored if and only if none of
the same name stood behind it. `HalRuns` has a run that ends with two pins of one name and goes on to lose
their order, and one run for each of the two exceptions: in the first a new pin takes over the reference,
in the second a new parameter takes it over and robs a pin that nothing was done to. Both end with a pin
that has no name and a free list that goes round in a circle.

**Functions and threads** (`Machine`, `Powers`, `Periods`, `Priority`, `Sched`, `SchedProofs`,
`SchedCalls`, `CircularList`, `HalThreads`). Again two levels: call lists as sequences, and the circular
doubly linked lists with their entry free list, changed in place. Periods are computed in the C types of
the source, where the number of timer periods is kept in an `int`: a thread's period is the multiple of
the timer period nearest to the request if and only if that number fits in an `int` and its length in a
`long`. A request of 2^32 + 1 timer periods gets a thread that runs every timer period, and one of 2^32 a
thread of period 0.

**A thread at work** (`ThreadWalk`). `thread_task` goes along its function list without the mutex, so its
reads of `next` links fall anywhere between the link stores of a call that moves an entry between that
list and the free list. An entry that is linked in is seen or not seen, and the walk goes along one whole
list either way. When an entry is unlinked and put on the free list, the walk comes back to the root if
and only if it does not stand on that entry when the entry is linked to itself; otherwise it stays on the
entry and the free list for ever.

**The HAL as a whole** (`HalWhole`, `WholeCalls`). Both states in one record: exports, exits and locks
concern both. One theorem is about every run of the whole, and one says what an exit removes.

**RTAPI resource tables** (`Bitmap`, `Rtapi`, `RtapiProofs`, `RtapiCalls`, `RtapiTables`). Modules,
tasks, shared memory, semaphores, fifos and interrupts: the tables as values with the invariant over all
runs, what each call gives its caller and leaves to the others, and the fixed arrays with their search
loops.

**The test shuffler** (`FullPeriod`, `Shuffle`) of `unit_tests/greatest.h`. The linear congruential
generator has full period (the power-of-two case of the theorem in section 3.2.1 of Knuth, The
Art of Computer Programming, volume 2), so every test runs exactly once.

**Xilinx bitfiles** (`Bitfile`, `BitfileForms`). Parser and printer of `lib/python/bitfile.py`, with the
round trips in both directions, and what the parser gives for every string.

Results of the operating system (timer periods, task creation, memory mapping) are parameters.
Calls that hold the HAL or RTAPI mutex are atomic. HAL values are opaque integers.

## Model

| member | source | states |
|---|---|---|
| `Ring.WindowAppend` | src/hal/hal_lib.c:3531-3552 | filling the slots behind a window and moving its end past them appends exactly those elements |
| `Ring.FreeSlotOutside` | src/hal/hal_lib.c:3531-3552 | the slots counted as writable are never among the readable ones |
| `HalPort.BytesReadable` | src/hal/hal_lib.c:3531-3540 | the distance from the read to the write index round the ring |
| `HalPort.BytesWritable` | src/hal/hal_lib.c:3542-3552 | what is left of size - 1; a port of size 0 has none |
| `HalPort.CopyPlanMeaning` | src/hal/hal_lib.c:3554-3592 | an accepted copy takes exactly the next `count` slots of the ring, in two parts, and ends just past them |
| `HalPort.WritePlanMeaning` | src/hal/hal_lib.c:3711-3740 | an accepted write fills exactly the next `count` slots; its final position is right if and only if the read index was not 0 or the request left room, and is 0 otherwise |
| `HalPort.Port.Readable` | src/hal/hal_lib.c:3752-3761 | the number of bytes queued |
| `HalPort.Port.Writable` | src/hal/hal_lib.c:3763-3772 | readable plus writable is size - 1 |
| `HalPort.Port.CopyOut` | src/hal/hal_lib.c:3618-3628 | the two block copies deliver the oldest bytes in order and touch nothing else |
| `HalPort.Port.CopyIn` | src/hal/hal_lib.c:3742-3743 | the two block copies store the bytes in ring order and leave the queued bytes alone |
| `HalPort.PortRead` | src/hal/hal_lib.c:3605-3636 | succeeds exactly if that many bytes are queued, delivers the oldest and drops them; otherwise changes nothing |
| `HalPort.PortPeek` | src/hal/hal_lib.c:3638-3667 | delivers what a read would and leaves the queue |
| `HalPort.PortPeekCommit` | src/hal/hal_lib.c:3669-3697 | drops what a read would drop |
| `HalPort.PortWrite` | src/hal/hal_lib.c:3699-3750 | succeeds exactly if the bytes fit; appends them if and only if not (read = 0 and count = writable), else leaves the port empty |
| `HalPort.PortClear` | src/hal/hal_lib.c:3783-3791 | leaves the port empty without moving the write index |
| `PortProtocol.WriterAvoidsReader` | src/hal/hal_lib.c:3699-3750 | in every state the invariant allows, the slot the writer stores into next is none the reader may still copy |
| `PortProtocol.StoreWriteKeepsInvIff` | src/hal/hal_lib.c:3717-3744 | publishing a write keeps the queue if and only if the write did not load read = 0 with count = writable |
| `PortProtocol.LosingStoreEffect` | src/hal/hal_lib.c:3725-3738 | such a write empties the queue if the reader has not moved, and otherwise adds the bytes written and one byte from the last slot that the writer never wrote |
| `PortProtocol.StepKeepsInvIff` | src/hal/hal_lib.c:3512-3791 | every step of either side keeps the invariant, except exactly that one |
| `PortProtocol.RunKeepsInv` | src/hal/hal_lib.c:3512-3791 | the invariant holds along every run without that write |
| `PortProtocol.PortSafety` | src/hal/hal_lib.c:3512-3791 | in every interleaving without that write, the bytes consumed (read, committed or cleared) are a prefix of those published, the reader holds the next ones, and the writer never stores into a byte the reader may still copy |
| `PortProtocol.LosingRunExists` | src/hal/hal_lib.c:3725-3738 | a run of four steps in which a successfully written byte is lost |
| `PortCalls.ReaderGoesAheadIff` | src/hal/hal_lib.c:3594-3603 | whatever the writer does, a read, peek or commit goes ahead if and only if as many bytes are queued when it loads the write index as it asks for, and a clear always; a refused call changes nothing |
| `PortCalls.ReaderTakes` | src/hal/hal_lib.c:3605-3791 | a call that goes ahead consumes the oldest bytes queued at that load: all of them for a clear, none for a peek, as many as asked for otherwise; a read or a peek delivers them |
| `PortCalls.ClearEmpties` | src/hal/hal_lib.c:3783-3791 | a clear that is not disturbed takes everything published and leaves the read index at the write index |
| `PortCalls.WriterGoesAheadIff` | src/hal/hal_lib.c:3699-3722 | whatever the reader does, a write goes ahead if and only if its bytes fit behind those queued when it loads the read index, one slot kept empty |
| `PortCalls.WriterPublishes` | src/hal/hal_lib.c:3699-3750 | a write that goes ahead publishes exactly its bytes, behind those published when it began |
| `PortCalls.ReaderFinishes` | src/hal/hal_lib.c:3605-3791 | a call of the reader that goes ahead can finish by its own steps, one for each byte copied and one more |
| `PortCalls.WriterFinishes` | src/hal/hal_lib.c:3699-3750 | so can a write |
| `HalStream.Advance` | src/hal/hal_lib.c:3892-3896 | the next index round the ring |
| `HalStream.CellInBounds` | src/hal/hal_lib.c:3967-3970 | every cell of every record lies below depth * (pins + 1) |
| `HalStream.StoreCell` | src/hal/hal_lib.c:3968-3970 | storing one cell changes that cell of that record only |
| `HalStream.Stream.Depth` | src/hal/hal_lib.c:3910-3916 | the occupancy, less one exactly when the write index is below the read index |
| `HalStream.Stream.Writable` | src/hal/hal_lib.c:3902-3904 | true exactly if fewer than depth - 1 records are queued |
| `HalStream.Stream.Readable` | src/hal/hal_lib.c:3906-3908 | true exactly if a record is queued |
| `HalStream.Stream.Write` | src/hal/hal_lib.c:3959-3973 | appends one record with the next sample number, or counts an overrun and changes nothing else |
| `HalStream.Stream.Read` | src/hal/hal_lib.c:3975-3989 | takes the oldest record with its sample number, or counts an underrun and changes nothing else |
| `StreamProtocol.WriterStore` | src/hal/hal_lib.c:3967-3970 | a store by the writer changes only the free slot it fills, which the reader is not copying |
| `StreamProtocol.StepKeepsInv` | src/hal/hal_lib.c:3892-3989 | every step of either side keeps the invariant |
| `StreamProtocol.StreamSafety` | src/hal/hal_lib.c:3892-3989 | in every interleaving the k-th read returns the k-th written record, numbered k modulo 2^32; writes minus reads is the occupancy, at most depth - 1; the data area has depth * (pins + 1) cells |
| `StreamProtocol.WrappedRunExists` | src/hal/hal_lib.c:3910-3916 | a run of write, read, write at depth 2 after which the depth reported is 0 although a record is queued |
| `StreamCalls.WriteBeginsIff` | src/hal/hal_lib.c:3959-3963 | a write begins if and only if fewer than depth - 1 records are queued, and is otherwise only counted as an overrun |
| `StreamCalls.WriteAdds` | src/hal/hal_lib.c:3959-3973 | a write that begins adds the record it was given with the next number, whatever the reader does |
| `StreamCalls.ReadBeginsIff` | src/hal/hal_lib.c:3975-3979 | a read begins if and only if a record is queued, and is otherwise only counted as an underrun |
| `StreamCalls.ReadReturns` | src/hal/hal_lib.c:3975-3989 | a read that begins returns the oldest record queued then, whatever the writer does |
| `StreamCalls.WriterFinishes` | src/hal/hal_lib.c:3959-3973 | a write that begins can finish by its own steps |
| `StreamCalls.ReaderFinishes` | src/hal/hal_lib.c:3975-3989 | so can a read |
| `Shmem.AllocUpExact` | src/hal/hal_lib.c:2874-2901 | succeeds exactly if some aligned block fits, returns the lowest, and changes nothing on failure |
| `Shmem.AllocDownExact` | src/hal/hal_lib.c:2903-2931 | succeeds exactly if some aligned block fits, returns the highest, and changes nothing on failure |
| `Shmem.BlocksNeverOverlap` | src/hal/hal_lib.c:2865-2931 | for every sequence of requests the blocks are pairwise disjoint, between header and end, and aligned |
| `Shmem.Allocator.ShmallocUp` | src/hal/hal_lib.c:2874-2901 | the in-place update is the allocation of `AllocUpExact` |
| `Shmem.Allocator.ShmallocDown` | src/hal/hal_lib.c:2903-2931 | the in-place update is the allocation of `AllocDownExact` |
| `Names.InsertKeepsSorted` | src/hal/hal_lib.c:715-746 | inserting before the first greater name keeps a list sorted |
| `Names.PlaceIs` | src/hal/hal_lib.c:715-746 | a walk that passes names that are not greater and stops at a greater one ends at the insertion place |
| `Names.LessIff` | src/hal/hal_lib.c:728-730 | the order of names is that of `strcmp`: at the first place where they differ the first has ended or has the smaller character |
| `HalInv.LinkKeepsInv` | src/hal/hal_lib.c:1092-1207 | linking keeps lists, links, counts and the rules for writers, bidirectional pins and ports |
| `HalInv.UnlinkKeepsInv` | src/hal/hal_lib.c:3227-3284 | unlinking keeps them too |
| `HalInv.DropPinKeepsInv` | src/hal/hal_lib.c:3183-3198 | taking a pin off the list and freeing it keeps them too |
| `HalInv.PinNewKeepsInv` | src/hal/hal_lib.c:623-747 | so does creating a pin, whether it is accepted, refused or found to be a duplicate |
| `HalInv.PinAliasKeepsInv` | src/hal/hal_lib.c:749-871 | so does aliasing; in particular the list stays sorted by current name |
| `HalOps.SignalNewKeepsInv` | src/hal/hal_lib.c:877-998 | so does creating a signal, also when memory runs out half way |
| `HalOps.SignalDeleteKeepsInv` | src/hal/hal_lib.c:1000-1043 | so does deleting a signal |
| `HalOps.CompExitKeepsInv` | src/hal/hal_lib.c:286-348 | so does a component's exit |
| `HalOps.DropPinsFacts` | src/hal/hal_lib.c:3183-3198 | dropping pins one after the other leaves the others in order and untouched |
| `HalResults.StepKeepsInv` | src/hal/hal_lib.c:168-1248 | every call, every store through a pin, and every use of the same memory by others keeps the invariant |
| `HalResults.SignalCounts` | src/hal/hal_lib.c:1045-1248 | in every reachable state each signal's counts are the numbers of linked pins of each direction; at most one writer, never with a bidirectional pin; a port has at most one reader; a linked pin names a live signal of its type |
| `HalResults.StructuresAccounted` | src/hal/hal_lib.c:2960-3015 | in every reachable state each pin structure is on exactly one of the two lists, and no two live signals share a value cell |
| `HalResults.UnlinkKeepsValues` | src/hal/hal_lib.c:3227-3284 | unlinking a pin that is not a port changes the value that no pin reads |
| `HalResults.DeleteKeepsValues` | src/hal/hal_lib.c:3304-3326 | nor does deleting its signal |
| `HalResults.LinkValues` | src/hal/hal_lib.c:1151-1207 | a linked pin reads the signal; its value is kept if its default is driven, the signal's otherwise |
| `HalResults.LinkKeepsOtherValues` | src/hal/hal_lib.c:1151-1207 | what another pin reads changes only if it is on the signal and the default is driven |
| `HalResults.ExitExact` | src/hal/hal_lib.c:286-348 | an exit removes exactly the component's pins; the others keep order, structure and links; no count includes a removed pin |
| `HalLinks.PinLookup` | src/hal/hal_lib.c:2389-2415 | a pin is found if and only if one bears the name or was created with it, and it is the first that does |
| `HalLinks.LinkOkIff` | src/hal/hal_lib.c:1104-1149 | an unlinked pin is linked if and only if the types agree and the pins already linked admit it: an output needs no output and no bidirectional pin there, a bidirectional pin no output, an input of a port no other input |
| `HalLinks.DrivesIff` | src/hal/hal_lib.c:1157-1162 | the default is driven if and only if the pin is no port, nothing drives the signal, and an input is the first to read it |
| `HalLinks.LinkEffect` | src/hal/hal_lib.c:1151-1206 | a link puts that pin on that signal, the counts are those of the pins linked, and no value changes but the signal's, to what the pin read, if it drives it |
| `HalLinks.LinkExact` | src/hal/hal_lib.c:1045-1207 | by names: refused while locked, and if one of the two is not there; else as above, and a pin that is on the signal already stays as it is |
| `HalLinks.UnlinkExact` | src/hal/hal_lib.c:1210-1248 | succeeds if and only if nothing is locked and the pin is there; the pin goes on reading what it read unless it is a port |
| `HalLinks.SignalNewExact` | src/hal/hal_lib.c:877-998 | succeeds if and only if nothing is locked, the name is new and not too long and there is memory; the signal has the type asked for, the value 0 and no pin |
| `HalLinks.SignalDeleteExact` | src/hal/hal_lib.c:1000-1043 | succeeds if and only if nothing is locked and the signal is there; its pins are on none and nothing else changes |
| `HalLinks.StoreSeen` | src/hal/hal.h:336-352 | a value stored through a pin is read by it and by the pins on its signal, and by no other |
| `HalPins.CompInitExact` | src/hal/hal_lib.c:168-284 | succeeds if and only if the id is valid, the name is new and not too long and there is memory; the id then stands for the new component, which is not ready |
| `HalPins.CompReadyExact` | src/hal/hal_lib.c:431-470 | succeeds if and only if the component is there and not ready, and makes that one ready |
| `HalPins.ExitComps` | src/hal/hal_lib.c:286-348 | an exit takes the component of that id off its list and no other |
| `HalPins.PinNewExact` | src/hal/hal_lib.c:623-747 | succeeds if and only if nothing is locked, the component is there and not ready, the pointer is valid, the name is new and not too long and there is memory; a refused call changes nothing on any list |
| `HalPins.NewPinLeaves` | src/hal/hal_lib.c:707-711 | the exit of the id that made a pin takes exactly that pin more than it would have before; the exit of any other id leaves it |
| `HalPins.NewPinLinks` | src/hal/hal_lib.c:707-711 | a new pin can be linked exactly to the signals of the type it was made with that admit a pin of its direction, and is counted there by that direction |
| `HalPins.AliasOutcome` | src/hal/hal_lib.c:749-875 | an alias succeeds if and only if nothing is locked, no pin answers to it, it is not too long, there is memory to save a name and a pin answers to the name given; it is the first such pin that is renamed |
| `HalPinRuns.PinsOfRuns` | src/hal/hal_lib.c:623-747 | in every reached state each listed pin was made by a call of the run, and has the type and the direction of that call and an owner of its id |
| `HalPinRuns.IdsOfRuns` | src/hal/hal_lib.c:168-284 | if every component gets an id that none on the list has, ids tell the listed components apart |
| `HalPinRuns.PinsLeaveWithMaker` | src/hal/hal_lib.c:286-348 | then an exit takes, in every reached state, exactly the pins that calls with its id have made |
| `HalAlias.RefusedAliasChangesNothing` | src/hal/hal_lib.c:749-815 | a refused alias call changes no pin, list, signal, component or value |
| `HalAlias.SecondAllocCannotFail` | src/hal/hal_lib.c:784-797 | once an old-name structure was obtained and put back, obtaining one cannot fail |
| `HalAlias.AliasExact` | src/hal/hal_lib.c:798-871 | a successful call keeps every pin's original name, gives the pin found its alias or its original name back, puts it where that name belongs, and changes no other pin |
| `HalAlias.ChainAliases` | src/hal/hal_lib.c:749-871 | any number of successful calls on a pin, one after the other, act as the last of them alone would |
| `HalAlias.ChainRestores` | src/hal/hal_lib.c:749-871 | aliases followed at once by a removal restore every pin, and the list if and only if no pin of the same name stood behind the pin |
| `HalAliasRuns.StepKeepsName` | src/hal/hal_lib.c:168-1248 | every call but the exit of the pin's owner and the freeing of an aliased pin or parameter keeps the pin listed and the name it was created with |
| `HalAliasRuns.RunKeepsName` | src/hal/hal_lib.c:168-1248 | so does every run of such calls |
| `HalAliasRuns.CreatedName` | src/hal/hal_lib.c:700-746 | a new pin's original name is the name it is created with |
| `HalAliasRuns.RemovalAfterRun` | src/hal/hal_lib.c:749-871 | after any such run, removing the alias gives the pin that name and a place behind exactly the pins whose names are not greater, so behind every pin that took it |
| `HalAliasRuns.RemovalRestoresOrderIff` | src/hal/hal_lib.c:749-871 | for a pin that bore its own name before the run, the order among the pins still there is restored if and only if those of the same name all stood before it |
| `HalRuns.NamesakesReached` | src/hal/hal_lib.c:727-742 | a run that ends with two pins of the same name |
| `HalRuns.OrderLostReached` | src/hal/hal_lib.c:846-870 | an alias and its removal, called next, restore both pins but not their order: the other one stood behind the pin under the same name and stands before it afterwards |
| `HalStale.ExitKeepsOldInvIff` | src/hal/hal_lib.c:3286-3302 | saved names stay owned by listed pins across an exit if and only if the component owns no aliased pin |
| `HalStale.ParamFreedKeepsOldInvIff` | src/hal/hal_lib.c:3328-3339 | they stay so when a parameter is freed if and only if it is not aliased |
| `HalStale.StepKeepsOldInvIff` | src/hal/hal_lib.c:168-1248 | a call breaks that if and only if it is the exit of a component that owns an aliased pin, or frees an aliased parameter |
| `HalStale.RunKeepsOldInv` | src/hal/hal_lib.c:168-1248 | it holds along every run without such a call |
| `HalRuns.StaleExitReached` | src/hal/hal_lib.c:3286-3302 | a run of four calls that ends with such an exit: the freed pin names a structure on the free list |
| `HalRuns.StaleNameHarms` | src/hal/hal_lib.c:2975-2985 | four more calls after which a listed pin has no name and the free list of old names never ends |
| `HalRuns.StaleParamHarms` | src/hal/hal_lib.c:1641-1646 | a run in which no component with an aliased pin exits, a parameter is freed while aliased, a pin takes its structure, the next parameter frees it again, and the pin ends without a name and the free list without an end |
| `LinkedList.ChainEnds` | src/hal/hal_lib.c:2389-2415 | a list as the library threads it has no cycle: a walk reaches its end after exactly as many steps as it has elements |
| `LinkedList.ListsApart` | src/hal/hal_lib.c:2960-3015 | the list in use and the free list both end, and no walk along one meets the other |
| `LinkedList.LinkAfterRep` | src/hal/hal_lib.c:715-734 | the two pointer assignments of an insertion insert into the sequence and leave the free list alone |
| `LinkedList.UnlinkAfterRep` | src/hal/hal_lib.c:3183-3198 | the pointer assignment of a removal removes from the sequence and leaves the free list alone |
| `LinkedList.PushFreeRep` | src/hal/hal_lib.c:3299-3302 | freeing a structure pushes it on the free list |
| `LinkedList.PopFreeRep` | src/hal/hal_lib.c:2964-2970 | allocating takes the head of the free list |
| `HalDb.FindPinByName` | src/hal/hal_lib.c:2389-2415 | the walk finds the first pin that answers to the name or the saved name, and what stands before it |
| `HalDb.FindSigByName` | src/hal/hal_lib.c:2417-2435 | the walk finds the first signal of that name, and what stands before it |
| `HalDb.FindCompById` | src/hal/hal_lib.c:2505-2523 | the walk finds the first component with that id, and what stands before it |
| `HalDb.FindCompByName` | src/hal/hal_lib.c:2369-2387 | the walk tells whether some component has that name |
| `HalDb.FindPinBySig` | src/hal/hal_lib.c:2611-2637 | the walk finds the first pin on the signal from a position on |
| `HalDb.FindNewPlace` | src/hal/hal_lib.c:715-746 | the insertion walk of a new pin detects exactly the names in use, although it stops at the first greater one |
| `HalDb.FindPlace` | src/hal/hal_lib.c:847-870 | the insertion walk of an alias or a signal ends at the insertion place |
| `HalDb.AllocStruct` | src/hal/hal_lib.c:2933-3015 | a structure comes off the free list or from fresh memory, and the two lists stay lists |
| `HalDb.Database.constructor` | src/hal/hal_lib.c:2828-2869 | freshly initialised shared memory holds empty lists and satisfies the invariant |
| `HalDb.Database.UnlinkPin` | src/hal/hal_lib.c:3227-3284 | does to the structures what `Hal.UnlinkPin` does |
| `HalDb.Database.FreePinStruct` | src/hal/hal_lib.c:3286-3302 | does what `Hal.FreePin` does |
| `HalDb.Database.PinNew` | src/hal/hal_lib.c:623-747 | on the linked lists, does what `Hal.PinNew` does, with the same error, and keeps the invariant |
| `HalDb.Database.PinAlias` | src/hal/hal_lib.c:749-871 | likewise for `Hal.PinAlias`, with its two walks |
| `HalDb.Database.SignalNew` | src/hal/hal_lib.c:877-998 | likewise for `Hal.SignalNew` |
| `HalDb.Database.SignalDelete` | src/hal/hal_lib.c:1000-1043 | likewise for `Hal.SignalDelete` |
| `HalDb.Database.FreeSigStruct` | src/hal/hal_lib.c:3304-3326 | the search-and-unlink loop unlinks every pin on the signal |
| `HalDb.Database.Link` | src/hal/hal_lib.c:1045-1208 | likewise for `Hal.Link` |
| `HalDb.Database.Unlink` | src/hal/hal_lib.c:1210-1248 | likewise for `Hal.Unlink` |
| `HalDb.Database.DropOwned` | src/hal/hal_lib.c:3183-3198 | the loop that unlinks list elements while it walks drops exactly the component's pins |
| `HalDb.Database.Exit` | src/hal/hal_lib.c:286-348 | likewise for `HalOps.CompExit` |
| `HalDb.Database.CompInit` | src/hal/hal_lib.c:168-284 | likewise for `Hal.CompInit` |
| `HalDb.Database.CompReady` | src/hal/hal_lib.c:431-469 | likewise for `Hal.CompReady` |
| `SchedProofs.SchedSafety` | src/hal/hal_lib.c:1808-2250 | in every state of every run use counts are the numbers of entries, a function that is not re-entrant has at most one, floating point functions are only in floating point threads, and along the thread list periods never rise and priority numbers fall unless saturated (what the periods are: `SchedProofs.PeriodsOfRuns`) |
| `SchedProofs.PositionMeaning` | src/hal/hal_lib.c:2108-2157 | +k and -k succeed exactly for 1 <= k <= L + 1 and give the k-th entry from the front or the back |
| `SchedProofs.DelUndoesAdd` | src/hal/hal_lib.c:2162-2250 | for a function without users, deleting after adding restores the state exactly |
| `SchedProofs.ExitExact` | src/hal/hal_lib.c:3351-3422 | an exit removes exactly the component's functions and every call of them; the rest keeps order and counts |
| `SchedProofs.WithoutKeepsOrder` | src/hal/hal_lib.c:3165-3181 | what a removal leaves keeps its order |
| `SchedCalls.ExportExact` | src/hal/hal_lib.c:1720-1780 | an export succeeds if and only if the name is new and not too long and there is memory; the function joins the list with the name, the owner and the flags given |
| `SchedCalls.ExportFlags` | src/hal/hal_lib.c:2085-2107 | an exported function can be added to a thread if and only if it needs no floating point or the thread has it, and at once a second time if and only if it is also re-entrant |
| `SchedCalls.FunctsOfRuns` | src/hal/hal_lib.c:1681-1780 | in every state of every run each function was exported by a call of the run and has its name, owner and flags |
| `SchedCalls.NamesOfRuns` | src/hal/hal_lib.c:1752-1779 | no two functions have one name |
| `SchedCalls.AddExact` | src/hal/hal_lib.c:2030-2160 | an addition succeeds if and only if nothing is locked, both are there, the function is not in use or re-entrant, the thread can run it and the position exists; it puts one entry there and changes nothing else |
| `SchedCalls.DelExact` | src/hal/hal_lib.c:2162-2250 | a deletion succeeds if and only if nothing is locked and the thread calls the function; the first entry goes and nothing else |
| `SchedCalls.CreateExact` | src/hal/hal_lib.c:1808-1977 | exactly when a thread is created, with the name and the floating point asked for and the priority just below that of the newest |
| `Periods.RoundPeriodNearestIff` | src/hal/hal_lib.c:1908-1917 | the period computed is a positive multiple of the timer period within half of it of the request if and only if the ratio fits in an `int` and the product in a `long` |
| `Periods.TruncationExample` | src/hal/hal_lib.c:1915-1917 | a ratio of 2^32 + 1 gives one timer period and a ratio of 2^32 gives 0 |
| `SchedProofs.CreatedPeriodIff` | src/hal/hal_lib.c:1870-1947 | a created thread has the floating point asked for and the period computed from the request and the timer period, which is nearest to the request if and only if the ratio fits |
| `SchedProofs.TruncatedThreads` | src/hal/hal_lib.c:1811-1917 | two calls that are accepted with the wrong period |
| `SchedProofs.PeriodsOfRuns` | src/hal/hal_lib.c:1808-1977 | in every state of every run each thread was made, at the place where it stands, by a call of the run that went through; it has the name, the floating point and the computed period of that call, and the period is nearest to that request if and only if the ratio fitted |
| `CircularList.AddKeepsWellFormed` | src/hal/hal_lib.c:2318-2333 | the four pointer assignments insert into one circular list and leave the others alone |
| `CircularList.RemoveKeepsWellFormed` | src/hal/hal_lib.c:2352-2367 | removal takes an entry out, makes it a list of its own and returns its successor |
| `CircularList.MoveKeepsWellFormed` | src/hal/hal_lib.c:3407-3422 | a removed entry can go to the free list, and every list stays circular and doubly linked |
| `ThreadWalk.MoveDone` | src/hal/hal_lib.c:2318-2367 | one by one the link stores do what the removal and the insertion of `CircularList` do |
| `ThreadWalk.AddSeenWhole` | src/hal/hal_lib.c:2318-2333 | while an entry of the free list is linked in, every walk of a thread goes along the list without it or the list with it, and comes back to the root exactly if it has been along the whole of one of them |
| `ThreadWalk.AddNewSeenWhole` | src/hal/hal_lib.c:2318-2333 | so it is for an entry of new memory |
| `ThreadWalk.WalkReturnsIff` | src/hal/hal_lib.c:2789-2811 | while an entry is unlinked and put on the free list, a walk is back at the root within as many reads as the list is long if and only if it does not stand on the entry when the entry is linked to itself |
| `ThreadWalk.FreeSeesWhole` | src/hal/hal_lib.c:2352-2367 | a walk that does not goes along the list with the entry or the list without it |
| `ThreadWalk.CaughtNeverReturns` | src/hal/hal_lib.c:2789-2811 | a walk that does is on the entry or the free list from then on |
| `ThreadWalk.CaughtForever` | src/hal/hal_lib.c:2789-2811 | there is such a walk for every entry, of every length |
| `HalThreads.Threads.FindPlace` | src/hal/hal_lib.c:2108-2140 | counting along the circular list in either direction ends at the entry for the position, or finds that it is out of range |
| `HalThreads.Threads.AddFunctToThread` | src/hal/hal_lib.c:2030-2160 | on the circular lists, does what `Sched.AddFunctToThread` does, with the same error |
| `HalThreads.Threads.DelFunctFromThread` | src/hal/hal_lib.c:2162-2250 | likewise for `Sched.DelFunctFromThread` |
| `HalThreads.Threads.ExportFunct` | src/hal/hal_lib.c:1741-1780 | likewise for `Sched.ExportFunct`, once the component may export |
| `HalThreads.Threads.FreeFunct` | src/hal/hal_lib.c:3351-3404 | removes every entry that calls the function, in every thread |
| `HalThreads.Threads.ExitFuncts` | src/hal/hal_lib.c:3165-3181 | likewise for `Sched.ExitFuncts` |
| `HalThreads.Threads.FreeHeadThread` | src/hal/hal_lib.c:3425-3490 | frees the head thread's entries and takes back their uses |
| `HalThreads.Threads.CreateThread` | src/hal/hal_lib.c:1808-1977 | likewise for `Sched.CreateThread` |
| `HalWhole.StepKeepsInv` | src/hal/hal_lib.c:168-2250 | every call keeps pins, signals, functions and threads in order together, with every function owned by a listed component |
| `HalWhole.WholeSafety` | src/hal/hal_lib.c:168-2250 | so it is in every state of every run from initialised memory |
| `HalWhole.ExportKeeps` | src/hal/hal_lib.c:1681-1780 | an export keeps it too, with its checks of lock, component and readiness |
| `HalWhole.ExitExact` | src/hal/hal_lib.c:286-348 | an exit removes exactly the component's pins and functions, with every thread entry of the functions and every count of the pins; everything of others keeps order, links and use counts |
| `WholeCalls.ExportExact` | src/hal/hal_lib.c:1681-1780 | an export succeeds if and only if nothing is locked, the component is a realtime one, there and not ready, the name is new and not too long and there is memory |
| `WholeCalls.ExportLeaves` | src/hal/hal_lib.c:286-348 | the exit of the id that exported a function takes it, the exit of any other id leaves it |
| `WholeCalls.FunctionsOfRuns` | src/hal/hal_lib.c:1681-1780 | in every state of every run each function was exported by a call of the run and has its name, its flags and an owner of its id |
| `WholeCalls.FunctionsLeaveWithMaker` | src/hal/hal_lib.c:286-348 | if ids tell components apart, an exit takes exactly the functions that calls with its id have exported |
| `FullPeriod.Doubling` | unit_tests/greatest.h:1096-1106 | 2^j turns of the generator are an affine map with slope 1 modulo 4 * 2^j and offset an odd multiple of 2^j |
| `FullPeriod.NoEarlyReturn` | unit_tests/greatest.h:1096-1112 | with multiplier 1 modulo 4 and odd increment no state comes back before 2^k turns |
| `FullPeriod.OrbitIsFullPeriodic` | unit_tests/greatest.h:1096-1112 | so the states are a sequence of full period |
| `FullPeriod.EveryValueReached` | unit_tests/greatest.h:1103-1104 | any 2^k consecutive states contain every residue |
| `FullPeriod.HitWithin` | unit_tests/greatest.h:1107-1112 | from anywhere a state below n comes up within mod - n + 1 turns |
| `Shuffle.PowerCeiling` | unit_tests/greatest.h:1087-1089 | the loop finds the least power of two that is at least the count |
| `Shuffle.IncrementReached` | unit_tests/greatest.h:1082-1092 | every one of the 13 increments can be selected, with either size of `unsigned long` |
| `Shuffle.Prng.InitSecondPass` | unit_tests/greatest.h:1081-1095 | for every seed the generator is set up as the seed demands, with a power-of-two modulus, a multiplier 1 modulo 4 and an odd increment |
| `Shuffle.Prng.Step` | unit_tests/greatest.h:1107-1112 | the loop ends at the next state below the count after at most mod - count + 1 turns |
| `Shuffle.Prng.TestPre` | unit_tests/greatest.h:717-747 | a test that is only listed, filtered out or stopped by an earlier failure is neither counted nor run; any other is counted, and is run if it is the one for this pass |
| `Shuffle.Prng.ShuffleTests` | unit_tests/greatest.h:666-681 | no test runs twice, and a run that is not aborted runs every test exactly once and stops |
| `Bitmap.MembersAfterSet` | src/rtapi/rtapi_bitops.h:23-28 | setting a bit adds its number to the set that the words stand for |
| `Bitmap.MembersAfterClear` | src/rtapi/rtapi_bitops.h:37-42 | clearing a bit takes its number out |
| `Bitmap.SetKeepsWords` | src/rtapi/rtapi_bitops.h:23-42 | words stay below 2^64 |
| `RtapiProofs.InitialOk` | src/rtapi/rtapi_common.h:215-282 | the initial tables satisfy the invariant |
| `RtapiProofs.TaskNewKeeps` | src/rtapi/rtai_rtapi.c:637-718 | creating a task keeps the task table's count right and its owners live |
| `RtapiProofs.ShmemNewKeeps` | src/rtapi/rtai_rtapi.c:937-1029 | opening shared memory keeps user counts equal to the numbers of bits, keys distinct and users live |
| `RtapiProofs.ShmemDeleteKeeps` | src/rtapi/rtai_rtapi.c:1041-1096 | so does closing it |
| `RtapiProofs.SemNewKeeps` | src/rtapi/rtai_rtapi.c:1117-1187 | likewise for semaphores |
| `RtapiProofs.SemDeleteKeeps` | src/rtapi/rtai_rtapi.c:1199-1243 | likewise |
| `RtapiProofs.FifoNewKeeps` | src/rtapi/rtai_rtapi.c:1308-1419 | opening a fifo end keeps states, ends and owners consistent |
| `RtapiProofs.FifoDeleteKeeps` | src/rtapi/rtai_rtapi.c:1431-1483 | so does closing what a module holds |
| `RtapiProofs.IrqNewKeeps` | src/rtapi/rtai_rtapi.c:1535-1603 | interrupt numbers stay distinct and owned |
| `RtapiProofs.IrqDeleteKeeps` | src/rtapi/rtai_rtapi.c:1615-1651 | likewise |
| `RtapiProofs.UnusedIdOwnsNothing` | src/rtapi/rtai_rtapi.c:291-328 | an id that no live module has owns nothing |
| `RtapiProofs.NewModuleOwnsNothing` | src/rtapi/rtai_rtapi.c:291-328 | a module that is given a reused id starts with nothing |
| `RtapiProofs.ExitExact` | src/rtapi/rtai_rtapi.c:340-420 | an exit leaves the module no task, bit, fifo end or interrupt and takes nothing from any other module |
| `RtapiProofs.TablesSafety` | src/rtapi/rtai_rtapi.c:291-1651 | in every reachable state table counts are the numbers of slots in use, user counts are the numbers of bits set, and unregistered ids own nothing |
| `RtapiCalls.InitExact` | src/rtapi/rtai_rtapi.c:291-328 | a module gets an id that none had, unless all are taken |
| `RtapiCalls.TaskNewExact` | src/rtapi/rtai_rtapi.c:637-718 | exactly when a task is created; it has the caller as owner and the priority asked for, in a slot that was free |
| `RtapiCalls.TaskDeleteExact` | src/rtapi/rtai_rtapi.c:730-776 | exactly the task named goes |
| `RtapiCalls.TaskRunsExact` | src/rtapi/rtai_rtapi.c:778-908 | starting, pausing or resuming a task changes its state and nothing else |
| `RtapiCalls.ShmemNewExact` | src/rtapi/rtai_rtapi.c:937-1029 | exactly when a block is opened; the block of that key has the caller as one more user, and the size asked for if it is new |
| `RtapiCalls.ShmemDeleteExact` | src/rtapi/rtai_rtapi.c:1041-1096 | exactly when it is closed; it stays for its other users and is freed by the last |
| `RtapiCalls.SemNewExact` | src/rtapi/rtai_rtapi.c:1117-1187 | the same for semaphores |
| `RtapiCalls.SemDeleteExact` | src/rtapi/rtai_rtapi.c:1199-1243 | the same |
| `RtapiCalls.FifoNewExact` | src/rtapi/rtai_rtapi.c:1308-1419 | exactly when a fifo end is opened; the caller holds the end it asked for and the other end stays as it was; busy exactly if a fifo of that key has that end already |
| `RtapiCalls.FifoDeleteExact` | src/rtapi/rtai_rtapi.c:1431-1483 | exactly when a module closes a fifo; it gives up its own ends only |
| `RtapiCalls.IrqNewExact` | src/rtapi/rtai_rtapi.c:1535-1603 | exactly when an interrupt is taken; it goes to the caller, and busy if somebody has it |
| `RtapiCalls.IrqDeleteExact` | src/rtapi/rtai_rtapi.c:1615-1651 | exactly when it is given up |
| `RtapiCalls.StepUndisturbs` | src/rtapi/rtai_rtapi.c:291-1651 | whatever is called, a module keeps all it has, unless the call is its own deletion or exit or names a task or an interrupt of it |
| `RtapiCalls.RunUndisturbs` | src/rtapi/rtai_rtapi.c:291-1651 | so over whole runs |
| `RtapiTables.FindFirst` | src/rtapi/rtai_rtapi.c:656-660 | the search loop finds the first slot with the property |
| `HalThreads.FindFunctPlace` | src/hal/hal_lib.c:1749-1780 | the insertion walk detects exactly the names in use and ends at the insertion place |
| `RtapiTables.Tables.constructor` | src/rtapi/rtapi_common.h:215-282 | sets up the initial tables |
| `RtapiTables.Tables.ModuleInit` | src/rtapi/rtai_rtapi.c:291-328 | on the arrays, does what `Rtapi.Init` does |
| `RtapiTables.Tables.TaskNew` | src/rtapi/rtai_rtapi.c:637-718 | likewise for `Rtapi.TaskNew` |
| `RtapiTables.Tables.TaskDelete` | src/rtapi/rtai_rtapi.c:730-776 | likewise for `Rtapi.TaskDelete` |
| `RtapiTables.Tables.ShmemNew` | src/rtapi/rtai_rtapi.c:937-1029 | likewise for `Rtapi.ShmemNew` |
| `RtapiTables.Tables.ShmemDelete` | src/rtapi/rtai_rtapi.c:1041-1096 | likewise for `Rtapi.ShmemDelete` |
| `RtapiTables.Tables.SemNew` | src/rtapi/rtai_rtapi.c:1117-1187 | likewise for `Rtapi.SemNew` |
| `RtapiTables.Tables.SemDelete` | src/rtapi/rtai_rtapi.c:1199-1243 | likewise for `Rtapi.SemDelete` |
| `RtapiTables.Tables.FifoNew` | src/rtapi/rtai_rtapi.c:1308-1419 | likewise for `Rtapi.FifoNew` |
| `RtapiTables.Tables.FifoDelete` | src/rtapi/rtai_rtapi.c:1431-1483 | likewise for `Rtapi.FifoDelete` |
| `RtapiTables.Tables.IrqNew` | src/rtapi/rtai_rtapi.c:1535-1603 | likewise for `Rtapi.IrqNew` |
| `RtapiTables.Tables.IrqDelete` | src/rtapi/rtai_rtapi.c:1615-1651 | likewise for `Rtapi.IrqDelete` |
| `RtapiTables.Tables.ModuleExit` | src/rtapi/rtai_rtapi.c:340-420 | the five clean-up loops release every slot of the module and no other, as `Rtapi.Exit` says slot by slot |
| `Bitfile.UnpackPack` | lib/python/bitfile.py:96-99 | a length that fits its field is read back |
| `Bitfile.PackUnpack` | lib/python/bitfile.py:69-74 | a length field is written back |
| `Bitfile.ChunkLayout` | lib/python/bitfile.py:91-100 | a chunk is its tag, its length with the most significant byte first, in two bytes for the tags a to d and in four for others, and its body |
| `Bitfile.SortedTagsMeaning` | lib/python/bitfile.py:56-59 | the tags in printing order are exactly those of the dictionary, "abcde" first and then by byte |
| `Bitfile.OrderMeaning` | lib/python/bitfile.py:56-59 | the tags a to e come first, in this order, then the others by their byte |
| `Bitfile.AscendingUnique` | lib/python/bitfile.py:56-59 | there is only one such order |
| `Bitfile.ParsePrint` | lib/python/bitfile.py:90-102 | printing succeeds exactly on one-byte tags whose bodies fit, and parsing the text gives the same chunks |
| `Bitfile.PrintParse` | lib/python/bitfile.py:61-102 | printing a parsed string gives it back if and only if its chunks are complete and in printing order |
| `Bitfile.PrintNormalises` | lib/python/bitfile.py:61-102 | otherwise printing gives another string with the same chunks, and printing that one again changes nothing |
| `BitfileForms.ParseExact` | lib/python/bitfile.py:61-83 | every string with the magic number is some complete chunks with tags of their own and then nothing, a cut-off chunk or a tag that has been before, and that decides what the parser gives: a body that is cut off is taken as far as it goes, a length that is cut off and a second tag are errors |
| `BitfileForms.LoadMeaning` | lib/python/bitfile.py:79-82 | the dictionary has exactly the chunks |
| `Bitfile.FromString` | lib/python/bitfile.py:61-80 | the loop parses as `Bitfile.Parse` does, with the same error for a bad magic number, a short length field or a repeated tag |
| `Bitfile.ToString` | lib/python/bitfile.py:90-102 | the loop prints as `Bitfile.Print` does |

## Left out

- Parameters (`hal_param_*`): their lists, aliases and part of an exit repeat those of pins; what they take from shared memory and from the old-name free list, and how they give it back or fail to, are steps here. The exit of a component with aliased parameters is its exit here followed by one freeing for each of them.
- What a thread does with the function of an entry it stands on, and walks during which more than one entry moves: `ThreadWalk` is about the links and one move at a time.
- `hal_thread_delete`: it calls `hal_exit` while holding the mutex that `hal_exit` takes; threads are removed as `rtapi_app_exit` does it.
- Waiting functions (`hal_port_wait_*`, `hal_stream_wait_*`), stream creation and attachment, type strings.
- Memory orders weaker than sequentially consistent: each load, copy and store is one atomic step.
- Ports of size 0 in the interleaving model; the sequential methods cover them.
- Per-process mappings of shared memory: offsets stand for pointers, and each pin has a data pointer of its own.
- Messages, name formatting, typed wrappers, procfs, module loading and the mutexes themselves.
- Structure sizes are those of a 64-bit machine; `struct hal_comp` fields other than id, name and readiness are not modelled.
- The free lists and memory of function, thread and entry structures: fresh structures are parameters of the thread operations, and the function and thread lists are sequences there.
- Sched.CreateThread: a timer that has been started has a period other than 0, as `rtapi_clock_set_period` promises; signed products wrap, as they do in the kernel.
- HalThreads.Threads.ExportFunct: the checks of lock and component are in `HalWhole.Export`; the pin with the function's run time that the library creates next is an ordinary new pin.
- HalDb.Database.Exit: the functions of the component are in `HalThreads.Threads.ExitFuncts`; the two together are `HalWhole.Exit`.
- HalThreads.Threads.AddFunctToThread: takes "a free entry or enough memory" as given, because `alloc_funct_entry_struct` touches its result before checking it.
- HalOps.CompExit: the component leaves its list after its pins; the library takes it off first and nothing in between looks at that list.
- User-space use of RTAPI shared memory is none, so `ulusers` stays 0; the timer is not modelled; starting, pausing and resuming a task are one operation that changes its state.
- RtapiTables.Tables.ModuleExit: the operating system is taken to release what it is told to; a failing `rt_free_global_irq` during an exit is not modelled.
- Shuffle.Prng.ShuffleTests: the body offers the same eligible tests on every pass (which ones those are is not modelled), and the count is at most half the range of `unsigned long`, beyond which the modulus loop does not end.
- Bitfile.Print: which exception a bad dictionary raises; Python's `sorted` is taken as given.
- The graphical and Python user interfaces, the other real-time back ends and the rest of the repository.
