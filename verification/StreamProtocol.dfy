/**
 One stream reader and one stream writer running at the same time without a lock
 (src/hal/hal_lib.c, `hal_stream_write` and `hal_stream_read`).  Each load or store of the
 other side's index and each cell copied is one atomic step.
 */
module StreamProtocol {
  import opened Machine
  import opened Ring
  import opened HalStream

  datatype Writer =
    | WriterIdle
    | WriterCopying(buf: seq<int>, slot: nat, done: nat)
    | WriterStamped(buf: seq<int>, slot: nat)

  datatype Reader =
    | ReaderIdle
    | ReaderCopying(slot: nat, got: seq<int>)
    | ReaderDone(slot: nat, record: Record)

  /** The shared stream, the two sides, and the records of the successful writes and reads so far. */
  datatype State = State(
    depth: nat, pins: nat, data: seq<int>, in_: nat, out: nat, thisSample: U32,
    overruns: nat, underruns: nat, writer: Writer, reader: Reader,
    written: seq<Record>, returned: seq<Record>)

  datatype Action =
    | WriterBegin(buf: seq<int>)
    | WriterCopyCell
    | WriterStamp
    | WriterStoreIn
    | ReaderBegin
    | ReaderCopyCell
    | ReaderLoadSample
    | ReaderStoreOut

  predicate Init(s: State) {
    && s.depth > 0 && |s.data| == Base(s.depth, s.pins)
    && s.in_ == 0 && s.out == 0 && s.thisSample == 0 && s.overruns == 0 && s.underruns == 0
    && s.writer == WriterIdle && s.reader == ReaderIdle
    && s.written == [] && s.returned == []
  }

  predicate Shape(s: State) {
    && |s.data| == Base(s.depth, s.pins)
    && s.in_ < s.depth && s.out < s.depth
    && match s.writer {
         case WriterIdle => true
         case WriterCopying(buf, slot, done) => |buf| == s.pins && slot < s.depth && done <= s.pins
         case WriterStamped(buf, slot) => |buf| == s.pins && slot < s.depth
       }
    && match s.reader {
         case ReaderIdle => true
         case ReaderCopying(slot, got) => slot < s.depth && |got| <= s.pins
         case ReaderDone(slot, record) => slot < s.depth
       }
  }

  predicate Enabled(s: State, a: Action) {
    match a
    case WriterBegin(buf) => s.writer.WriterIdle? && |buf| == s.pins
    case WriterCopyCell => s.writer.WriterCopying? && s.writer.done < s.pins
    case WriterStamp => s.writer.WriterCopying? && s.writer.done == s.pins
    case WriterStoreIn => s.writer.WriterStamped?
    case ReaderBegin => s.reader.ReaderIdle?
    case ReaderCopyCell => s.reader.ReaderCopying? && |s.reader.got| < s.pins
    case ReaderLoadSample => s.reader.ReaderCopying? && |s.reader.got| == s.pins
    case ReaderStoreOut => s.reader.ReaderDone?
  }

  /** The data index an action touches, if it touches one. */
  function CellTouched(s: State, a: Action): (i: nat)
    requires Shape(s) && Enabled(s, a)
    requires a.WriterCopyCell? || a.WriterStamp? || a.ReaderCopyCell? || a.ReaderLoadSample?
    ensures i < |s.data|
  {
    var (slot, j) := if a.WriterCopyCell? then (s.writer.slot, s.writer.done)
                   else if a.WriterStamp? then (s.writer.slot, s.pins)
                   else if a.ReaderCopyCell? then (s.reader.slot, |s.reader.got|)
                   else (s.reader.slot, s.pins);
    RecordsApart(slot, s.depth, s.pins);
    Base(slot, s.pins) + j
  }

  function NextSample(s: State): U32 { (s.thisSample + 1) % 0x1_0000_0000 }

  function Do(s: State, a: Action): (s': State)
    requires Shape(s) && Enabled(s, a)
    ensures Shape(s')
  {
    match a
    case WriterBegin(buf) =>
      if Advance(s.in_, s.depth) == s.out then s.(overruns := (s.overruns + 1) % ULONG)
      else s.(writer := WriterCopying(buf, s.in_, 0))
    case WriterCopyCell =>
      s.(data := s.data[CellTouched(s, a) := s.writer.buf[s.writer.done]],
         writer := s.writer.(done := s.writer.done + 1))
    case WriterStamp =>
      s.(data := s.data[CellTouched(s, a) := NextSample(s)], thisSample := NextSample(s),
         writer := WriterStamped(s.writer.buf, s.writer.slot))
    case WriterStoreIn =>
      s.(in_ := Advance(s.writer.slot, s.depth), writer := WriterIdle,
         written := s.written + [Record(s.writer.buf, s.thisSample)])
    case ReaderBegin =>
      if s.in_ == s.out then s.(underruns := (s.underruns + 1) % ULONG)
      else s.(reader := ReaderCopying(s.out, []))
    case ReaderCopyCell =>
      s.(reader := s.reader.(got := s.reader.got + [s.data[CellTouched(s, a)]]))
    case ReaderLoadSample =>
      s.(reader := ReaderDone(s.reader.slot, Record(s.reader.got, s.data[CellTouched(s, a)])))
    case ReaderStoreOut =>
      s.(out := Advance(s.reader.slot, s.depth), reader := ReaderIdle,
         returned := s.returned + [s.reader.record])
  }

  function Slots(s: State): (rs: seq<Record>)
    requires Shape(s)
    ensures |rs| == s.depth && forall i :: 0 <= i < |rs| ==> |rs[i].cells| == s.pins
  {
    Records(s.data, s.depth, s.pins)
  }

  /**
   What every step keeps: the records written and not yet returned are the ring's contents,
   sample numbers count the writes, the writer fills a free slot and the reader copies the
   oldest record.
   */
  predicate Inv(s: State) {
    && Shape(s)
    && s.written == s.returned + Window(Slots(s), s.out, s.in_)
    && SamplesInv(s)
    && WriterInv(s, Slots(s))
    && ReaderInv(s, Slots(s))
  }

  predicate SamplesInv(s: State) {
    && (forall k :: 0 <= k < |s.written| ==> s.written[k].sample == SampleNumber(k + 1))
    && s.thisSample == SampleNumber(|s.written| + if s.writer.WriterStamped? then 1 else 0)
  }

  predicate WriterInv(s: State, rs: seq<Record>)
    requires Shape(s) && |rs| == s.depth && |rs[s.in_].cells| == s.pins
  {
    !s.writer.WriterIdle? ==>
      && s.writer.slot == s.in_ && Dist(s.out, s.in_, s.depth) < s.depth - 1
      && if s.writer.WriterCopying? then rs[s.in_].cells[..s.writer.done] == s.writer.buf[..s.writer.done]
         else rs[s.in_] == Record(s.writer.buf, s.thisSample)
  }

  predicate ReaderInv(s: State, rs: seq<Record>)
    requires Shape(s) && |rs| == s.depth
  {
    !s.reader.ReaderIdle? ==>
      && s.reader.slot == s.out && s.out != s.in_
      && if s.reader.ReaderCopying? then s.reader.got <= rs[s.out].cells else s.reader.record == rs[s.out]
  }

  /** A store by the writer changes only the free slot it fills, which the reader is not copying. */
  lemma WriterStore(s: State, a: Action)
    requires Inv(s) && Enabled(s, a) && (a.WriterCopyCell? || a.WriterStamp?)
    ensures var rs, rs' := Slots(s), Slots(Do(s, a));
            && (!s.reader.ReaderIdle? ==> s.reader.slot != s.writer.slot)
            && rs' == rs[s.in_ := if a.WriterCopyCell?
                                  then rs[s.in_].(cells := rs[s.in_].cells[s.writer.done := s.writer.buf[s.writer.done]])
                                  else rs[s.in_].(sample := NextSample(s))]
  {
    if a.WriterCopyCell? {
      StoreIs(s, s.writer.done, s.writer.buf[s.writer.done], Do(s, a));
    } else {
      StoreIs(s, s.pins, NextSample(s), Do(s, a));
    }
  }

  lemma StoreIs(s: State, j: nat, v: int, s': State)
    requires Shape(s) && Shape(s') && j <= s.pins && s'.depth == s.depth && s'.pins == s.pins
    requires Base(s.in_, s.pins) + j < |s.data| && s'.data == s.data[Base(s.in_, s.pins) + j := v]
    ensures var rs := Slots(s);
            Slots(s') == rs[s.in_ := if j < s.pins then rs[s.in_].(cells := rs[s.in_].cells[j := v])
                                     else rs[s.in_].(sample := v)]
  {
    StoreCell(s.data, s.depth, s.pins, s.in_, j, v);
  }

  /** The two states differ in the writer and in the slot that it fills. */
  predicate WriterMoved(s: State, s': State)
    requires Shape(s) && Shape(s')
  {
    && s'.depth == s.depth && s'.pins == s.pins && s'.in_ == s.in_ && s'.out == s.out && s'.reader == s.reader
    && s'.written == s.written && s'.returned == s.returned && SameExcept(Slots(s'), Slots(s), s.in_)
  }

  lemma WriterMovedKeeps(s: State, s': State)
    requires Inv(s) && Shape(s') && WriterMoved(s, s')
    ensures s'.written == s'.returned + Window(Slots(s'), s'.out, s'.in_) && ReaderInv(s', Slots(s'))
  {
    FillFreeSlot(Slots(s), Slots(s'), s.out, s.in_);
  }

  lemma WriterCopyKeepsInv(s: State)
    requires Inv(s) && Enabled(s, WriterCopyCell)
    ensures Inv(Do(s, WriterCopyCell))
  {
    WriterStore(s, WriterCopyCell);
    WriterMovedKeeps(s, Do(s, WriterCopyCell));
  }

  lemma NextSampleNumber(k: nat)
    ensures (SampleNumber(k) + 1) % 0x1_0000_0000 == SampleNumber(k + 1)
  {
  }

  lemma WriterStampKeepsInv(s: State)
    requires Inv(s) && Enabled(s, WriterStamp)
    ensures Inv(Do(s, WriterStamp))
  {
    NextSampleNumber(|s.written|);
    WriterStore(s, WriterStamp);
    var s' := Do(s, WriterStamp);
    WriterMovedKeeps(s, s');
    assert Slots(s')[s.in_].cells == s.writer.buf;
  }

  lemma StoreInKeepsInv(s: State)
    requires Inv(s) && Enabled(s, WriterStoreIn)
    ensures Inv(Do(s, WriterStoreIn))
  {
    var s' := Do(s, WriterStoreIn);
    FillFreeSlot(Slots(s), Slots(s), s.out, s.in_);
    assert Slots(s') == Slots(s);
  }

  /** Moving the head of a queue to the end of what precedes it. */
  lemma MoveHead<T>(before: seq<T>, q: seq<T>)
    requires |q| > 0
    ensures before + q == (before + [q[0]]) + q[1..]
  {
  }

  lemma StoreOutKeepsInv(s: State)
    requires Inv(s) && Enabled(s, ReaderStoreOut)
    ensures Inv(Do(s, ReaderStoreOut))
  {
    var s', rs := Do(s, ReaderStoreOut), Slots(s);
    assert Slots(s') == rs;
    MoveHead(s.returned, Window(rs, s.out, s.in_));
    WindowDrop(rs, s.out, s.in_, 1);
    assert Dist(s'.out, s'.in_, s.depth) == Dist(s.out, s.in_, s.depth) - 1;
  }

  /** What the reader copies is the record at the read index. */
  lemma ReaderCellIs(s: State)
    requires Inv(s) && s.reader.ReaderCopying?
    ensures var base := Base(s.out, s.pins);
            && base + s.pins < |s.data|
            && Slots(s)[s.out] == Record(s.data[base..base + s.pins], s.data[base + s.pins])
  {
    RecordsApart(s.out, s.depth, s.pins);
    assert Slots(s)[s.out] == RecordAt(s.data, s.out, s.depth, s.pins);
  }

  lemma ReaderCopyKeepsInv(s: State)
    requires Inv(s) && Enabled(s, ReaderCopyCell)
    ensures Inv(Do(s, ReaderCopyCell))
  {
    ReaderCellIs(s);
    assert Slots(Do(s, ReaderCopyCell)) == Slots(s);
  }

  lemma ReaderSampleKeepsInv(s: State)
    requires Inv(s) && Enabled(s, ReaderLoadSample)
    ensures Inv(Do(s, ReaderLoadSample))
  {
    ReaderCellIs(s);
    assert Slots(Do(s, ReaderLoadSample)) == Slots(s);
  }

  lemma WriterBeginKeepsInv(s: State, buf: seq<int>)
    requires Inv(s) && Enabled(s, WriterBegin(buf))
    ensures Inv(Do(s, WriterBegin(buf)))
  {
    assert Slots(Do(s, WriterBegin(buf))) == Slots(s);
  }

  lemma ReaderBeginKeepsInv(s: State)
    requires Inv(s) && Enabled(s, ReaderBegin)
    ensures Inv(Do(s, ReaderBegin))
  {
    assert Slots(Do(s, ReaderBegin)) == Slots(s);
  }

  lemma StepKeepsInv(s: State, a: Action)
    requires Inv(s) && Enabled(s, a)
    ensures Inv(Do(s, a))
  {
    match a
    case WriterCopyCell => WriterCopyKeepsInv(s);
    case WriterStamp => WriterStampKeepsInv(s);
    case WriterStoreIn => StoreInKeepsInv(s);
    case ReaderStoreOut => StoreOutKeepsInv(s);
    case ReaderCopyCell => ReaderCopyKeepsInv(s);
    case ReaderLoadSample => ReaderSampleKeepsInv(s);
    case WriterBegin(buf) => WriterBeginKeepsInv(s, buf);
    case ReaderBegin => ReaderBeginKeepsInv(s);
  }

  /** One step from one state to another. */
  predicate Goes(s: State, a: Action, s': State) {
    Shape(s) && Enabled(s, a) && Do(s, a) == s'
  }

  ghost predicate IsRun(states: seq<State>, actions: seq<Action>) {
    && |states| == |actions| + 1
    && Init(states[0])
    && forall i, j :: 0 <= i && j == i + 1 && j <= |actions| ==> Goes(states[i], actions[i], states[j])
  }

  lemma GoesKeepsInv(s: State, a: Action, s': State)
    requires Inv(s) && Goes(s, a, s')
    ensures Inv(s') && s'.depth == s.depth && s'.pins == s.pins
  {
    StepKeepsInv(s, a);
  }

  lemma {:induction false} RunKeepsInv(states: seq<State>, actions: seq<Action>, n: nat)
    requires IsRun(states, actions) && n <= |actions|
    ensures Inv(states[n]) && states[n].depth == states[0].depth && states[n].pins == states[0].pins
  {
    if n > 0 {
      var k := n - 1;
      RunKeepsInv(states, actions, k);
      GoesKeepsInv(states[k], actions[k], states[n]);
    }
  }

  /**
   Safety over whole runs.  In every interleaving the k-th successful read returned the
   k-th successfully written record, numbered k modulo 2^32; the occupancy is the number of
   writes minus the number of reads and never exceeds depth - 1; and no step touches a cell
   outside the depth * (pins + 1) cells of the stream.
   */
  lemma StreamSafety(states: seq<State>, actions: seq<Action>, n: nat)
    requires IsRun(states, actions) && n <= |actions|
    ensures var s := states[n];
            && |s.returned| <= |s.written|
            && (forall k :: 0 <= k < |s.returned| ==> s.returned[k] == s.written[k])
            && (forall k :: 0 <= k < |s.written| ==> s.written[k].sample == (k + 1) % 0x1_0000_0000)
            && s.in_ < s.depth && s.out < s.depth
            && |s.written| - |s.returned| == Dist(s.out, s.in_, s.depth) <= s.depth - 1
            && |s.data| == s.depth * (s.pins + 1)
  {
    RunKeepsInv(states, actions, n);
    InvMeaning(states[n]);
  }

  lemma InvMeaning(s: State)
    requires Inv(s)
    ensures |s.returned| <= |s.written| && (forall k :: 0 <= k < |s.returned| ==> s.returned[k] == s.written[k])
    ensures forall k :: 0 <= k < |s.written| ==> s.written[k].sample == (k + 1) % 0x1_0000_0000
    ensures s.in_ < s.depth && s.out < s.depth
    ensures |s.written| - |s.returned| == Dist(s.out, s.in_, s.depth) <= s.depth - 1
    ensures |s.data| == s.depth * (s.pins + 1)
  {
    BaseIsProduct(s.depth, s.pins);
  }

  // ------------------------------------------------------- a wrong depth report

  const NEW_STREAM: State := State(2, 0, [0, 0], 0, 0, 0, 0, 0, WriterIdle, ReaderIdle, [], [])
  const WRITTEN: State := NEW_STREAM.(data := [1, 0], in_ := 1, thisSample := 1, written := [Record([], 1)])
  const EMPTIED: State := WRITTEN.(out := 1, returned := [Record([], 1)])
  const WRAPPED: State := EMPTIED.(data := [1, 2], in_ := 0, thisSample := 2, written := [Record([], 1), Record([], 2)])

  lemma TwoRecords()
    ensures Base(0, 0) == 0 && Base(1, 0) == 1 && Base(2, 0) == 2
  {
    BaseIsProduct(1, 0);
    BaseIsProduct(2, 0);
  }

  lemma FirstWrite() returns (s1: State, s2: State)
    ensures Goes(NEW_STREAM, WriterBegin([]), s1) && Goes(s1, WriterStamp, s2) && Goes(s2, WriterStoreIn, WRITTEN)
  {
    TwoRecords();
    s1 := NEW_STREAM.(writer := WriterCopying([], 0, 0));
    s2 := NEW_STREAM.(data := [1, 0], thisSample := 1, writer := WriterStamped([], 0));
  }

  lemma FirstRead() returns (s1: State, s2: State)
    ensures Goes(WRITTEN, ReaderBegin, s1) && Goes(s1, ReaderLoadSample, s2) && Goes(s2, ReaderStoreOut, EMPTIED)
  {
    TwoRecords();
    s1 := WRITTEN.(reader := ReaderCopying(0, []));
    s2 := WRITTEN.(reader := ReaderDone(0, Record([], 1)));
  }

  lemma SecondWrite() returns (s1: State, s2: State)
    ensures Goes(EMPTIED, WriterBegin([]), s1) && Goes(s1, WriterStamp, s2) && Goes(s2, WriterStoreIn, WRAPPED)
  {
    TwoRecords();
    s1 := EMPTIED.(writer := WriterCopying([], 1, 0));
    s2 := EMPTIED.(data := [1, 2], thisSample := 2, writer := WriterStamped([], 1));
  }

  lemma Extend(states: seq<State>, actions: seq<Action>, a: Action, s': State)
    requires IsRun(states, actions) && Goes(states[|actions|], a, s')
    ensures IsRun(states + [s'], actions + [a])
  {
    var states', actions' := states + [s'], actions + [a];
    forall i, j | 0 <= i && j == i + 1 && j <= |actions'|
      ensures Goes(states'[i], actions'[i], states'[j])
    {
      if i < |actions| {
        assert Goes(states[i], actions[i], states[j]);
      }
    }
  }

  /** A call of one side: three steps. */
  lemma ExtendCall(states: seq<State>, actions: seq<Action>, a1: Action, s1: State, a2: Action, s2: State, a3: Action, s3: State)
    returns (states': seq<State>, actions': seq<Action>)
    requires IsRun(states, actions) && Goes(states[|actions|], a1, s1) && Goes(s1, a2, s2) && Goes(s2, a3, s3)
    ensures IsRun(states', actions') && states'[|actions'|] == s3
  {
    Extend(states, actions, a1, s1);
    Extend(states + [s1], actions + [a1], a2, s2);
    Extend(states + [s1] + [s2], actions + [a1] + [a2], a3, s3);
    states', actions' := states + [s1] + [s2] + [s3], actions + [a1] + [a2] + [a3];
  }

  /** A run after which the depth reported is 0 although a record is queued: write, read, write at depth 2. */
  lemma WrappedRunExists() returns (states: seq<State>, actions: seq<Action>)
    ensures IsRun(states, actions)
    ensures var s := states[|actions|];
            && s.in_ < s.out < s.depth && |s.written| - |s.returned| == 1
            && ReportedDepth(s.in_, s.out, s.depth) == 0
  {
    TwoRecords();
    var s1, s2 := FirstWrite();
    states, actions := ExtendCall([NEW_STREAM], [], WriterBegin([]), s1, WriterStamp, s2, WriterStoreIn, WRITTEN);
    s1, s2 := FirstRead();
    states, actions := ExtendCall(states, actions, ReaderBegin, s1, ReaderLoadSample, s2, ReaderStoreOut, EMPTIED);
    s1, s2 := SecondWrite();
    states, actions := ExtendCall(states, actions, WriterBegin([]), s1, WriterStamp, s2, WriterStoreIn, WRAPPED);
  }
}
