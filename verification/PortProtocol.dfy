/**
 One port reader and one port writer running at the same time without a lock
 (src/hal/hal_lib.c, "HAL PORT functions").  Each load of an index, each byte copied and
 each store of an index is one atomic step, so either side may be working from an index
 that the other side has since moved.
 */
module PortProtocol {
  import opened Machine
  import opened Ring
  import opened HalPort

  /** The four calls of the reading side. */
  datatype ReadCall = Read | Peek | Commit | Clear

  /** `r` and `w` are the indices a side has loaded. */
  datatype Reader =
    | ReaderIdle
    | ReaderLoading(call: ReadCall, count: U32, r: U32)
    | ReaderBusy(call: ReadCall, count: U32, r: U32, w: U32, final: U32, got: seq<Byte>)

  datatype Writer =
    | WriterIdle
    | WriterLoading(src: seq<Byte>, r: U32)
    | WriterBusy(src: seq<Byte>, r: U32, w: U32, final: U32, done: nat)

  /**
   The shared port, the two sides, and two histories: the bytes of every finished write,
   and the bytes that finished calls of the reader took or skipped.
   */
  datatype State = State(
    buff: seq<Byte>, read: U32, write: U32,
    reader: Reader, writer: Writer,
    published: seq<Byte>, consumed: seq<Byte>)

  datatype Action =
    | ReaderLoadRead(call: ReadCall, count: U32)
    | ReaderLoadWrite
    | ReaderCopyByte
    | ReaderReturn
    | ReaderStoreRead
    | WriterLoadRead(src: seq<Byte>)
    | WriterLoadWrite
    | WriterCopyByte
    | WriterStoreWrite

  /** A new port is empty and its buffer holds whatever the memory held. */
  predicate Init(s: State) {
    && 0 < |s.buff| < 0x1_0000_0000
    && s.read == 0 && s.write == 0
    && s.reader == ReaderIdle && s.writer == WriterIdle
    && s.published == [] && s.consumed == []
  }

  predicate Shape(s: State) {
    && 0 < |s.buff| < 0x1_0000_0000
    && s.read < |s.buff| && s.write < |s.buff|
    && (s.reader.ReaderLoading? ==> s.reader.r < |s.buff| && (s.reader.call != Clear ==> s.reader.count > 0))
    && (s.reader.ReaderBusy? ==> ReaderPlan(s.reader, |s.buff|))
    && (s.writer.WriterLoading? ==> s.writer.r < |s.buff| && 0 < |s.writer.src| < 0x1_0000_0000)
    && (s.writer.WriterBusy? ==> WriterPlan(s.writer, |s.buff|))
  }

  /** What a reader that has loaded both indices is going to do. */
  predicate ReaderPlan(rd: Reader, size: U32)
    requires rd.ReaderBusy? && size > 0
  {
    && rd.r < size && rd.w < size
    && rd.count <= Dist(rd.r, rd.w, size)
    && |rd.got| <= rd.count
    && if rd.call == Clear then rd.count == Dist(rd.r, rd.w, size) && rd.final == rd.w
       else rd.final == ComputeCopy(rd.r, rd.w, size, rd.count).final
  }

  /** What a writer that has loaded both indices is going to do. */
  predicate WriterPlan(wr: Writer, size: U32)
    requires wr.WriterBusy? && size > 0
  {
    && wr.r < size && wr.w < size && 0 < |wr.src| < 0x1_0000_0000
    && wr.done <= |wr.src|
    && var p := ComputeWrite(wr.r, wr.w, size, |wr.src|);
       p.Copy? && wr.final == p.final
  }

  predicate Enabled(s: State, a: Action) {
    match a
    case ReaderLoadRead(call, count) => s.reader.ReaderIdle? && (call != Clear ==> count > 0)
    case ReaderLoadWrite => s.reader.ReaderLoading?
    case ReaderCopyByte => s.reader.ReaderBusy? && s.reader.call in {Read, Peek} && |s.reader.got| < s.reader.count
    case ReaderReturn => s.reader.ReaderBusy? && s.reader.call == Peek && |s.reader.got| == s.reader.count
    case ReaderStoreRead =>
      s.reader.ReaderBusy? && s.reader.call != Peek && (s.reader.call == Read ==> |s.reader.got| == s.reader.count)
    case WriterLoadRead(src) => s.writer.WriterIdle? && 0 < |src| < 0x1_0000_0000
    case WriterLoadWrite => s.writer.WriterLoading?
    case WriterCopyByte => s.writer.WriterBusy? && s.writer.done < |s.writer.src|
    case WriterStoreWrite => s.writer.WriterBusy? && s.writer.done == |s.writer.src|
  }

  /** The slot the reader copies next. */
  function ReaderSlot(s: State): (p: nat)
    requires Shape(s) && Enabled(s, ReaderCopyByte)
    ensures p < |s.buff|
  {
    var rd := s.reader;
    CopyPlanMeaning(rd.r, rd.w, |s.buff|, rd.count);
    ComputeCopy(rd.r, rd.w, |s.buff|, rd.count).Slot(rd.r, |rd.got|)
  }

  /** The slot the writer stores into next. */
  function WriterSlot(s: State): (p: nat)
    requires Shape(s) && Enabled(s, WriterCopyByte)
    ensures p < |s.buff|
  {
    var wr := s.writer;
    WritePlanMeaning(wr.r, wr.w, |s.buff|, |wr.src|);
    ComputeWrite(wr.r, wr.w, |s.buff|, |wr.src|).Slot(wr.w, wr.done)
  }

  /** The reader's second load decides whether the call goes ahead. */
  function AfterReaderLoads(rd: Reader, w: U32, size: U32): (rd': Reader)
    requires rd.ReaderLoading? && rd.r < size && w < size
    requires rd.call != Clear ==> rd.count > 0
    ensures rd'.ReaderBusy? ==> ReaderPlan(rd', size)
    ensures !rd'.ReaderLoading?
  {
    if rd.call == Clear then ReaderBusy(Clear, Dist(rd.r, w, size), rd.r, w, w, [])
    else
      var p := ComputeCopy(rd.r, w, size, rd.count);
      if p.Refused? then ReaderIdle else ReaderBusy(rd.call, rd.count, rd.r, w, p.final, [])
  }

  function AfterWriterLoads(wr: Writer, w: U32, size: U32): (wr': Writer)
    requires wr.WriterLoading? && wr.r < size && w < size && 0 < |wr.src| < 0x1_0000_0000
    ensures wr'.WriterBusy? ==> WriterPlan(wr', size)
    ensures !wr'.WriterLoading?
  {
    var p := ComputeWrite(wr.r, w, size, |wr.src|);
    if p.Refused? then WriterIdle else WriterBusy(wr.src, wr.r, w, p.final, 0)
  }

  function Do(s: State, a: Action): (s': State)
    requires Shape(s) && Enabled(s, a)
    ensures Shape(s') && |s'.buff| == |s.buff|
  {
    match a
    case ReaderLoadRead(call, count) => s.(reader := ReaderLoading(call, count, s.read))
    case ReaderLoadWrite => s.(reader := AfterReaderLoads(s.reader, s.write, |s.buff|))
    case ReaderCopyByte => s.(reader := s.reader.(got := s.reader.got + [s.buff[ReaderSlot(s)]]))
    case ReaderReturn => s.(reader := ReaderIdle)
    case ReaderStoreRead =>
      ReaderFinal(s.reader, |s.buff|);
      var taken := if s.reader.call == Read then s.reader.got else Window(s.buff, s.read, s.reader.final);
      s.(read := s.reader.final, reader := ReaderIdle, consumed := s.consumed + taken)
    case WriterLoadRead(src) => s.(writer := WriterLoading(src, s.read))
    case WriterLoadWrite => s.(writer := AfterWriterLoads(s.writer, s.write, |s.buff|))
    case WriterCopyByte =>
      var i := WriterSlot(s);
      s.(buff := s.buff[i := s.writer.src[s.writer.done]], writer := s.writer.(done := s.writer.done + 1))
    case WriterStoreWrite =>
      WritePlanMeaning(s.writer.r, s.writer.w, |s.buff|, |s.writer.src|);
      s.(write := s.writer.final, writer := WriterIdle, published := s.published + s.writer.src)
  }

  lemma ReaderFinal(rd: Reader, size: U32)
    requires size > 0 && rd.ReaderBusy? && ReaderPlan(rd, size)
    ensures rd.final == At(rd.r, rd.count, size)
  {
  }

  /** The write about to be published is the one whose placement is wrong. */
  predicate LosingStore(s: State, a: Action)
    requires Shape(s)
  {
    a.WriterStoreWrite? && s.writer.WriterBusy?
    && LosesData(s.writer.r, s.writer.w, |s.buff|, |s.writer.src|)
  }

  /**
   What every step keeps: the bytes published but not yet consumed are exactly those in
   the ring, a loaded index is at most out of date on the safe side, the reader holds the
   next bytes of the queue, and the bytes already stored by the writer sit in free slots.
   */
  predicate Inv(s: State) {
    && Shape(s)
    && s.published == s.consumed + Window(s.buff, s.read, s.write)
    && ReaderInv(s)
    && WriterInv(s)
  }

  predicate ReaderInv(s: State)
    requires Shape(s)
  {
    var n := |s.buff|;
    && (s.reader.ReaderLoading? ==> s.reader.r == s.read)
    && (s.reader.ReaderBusy? ==>
          && s.reader.r == s.read
          && Dist(s.read, s.reader.w, n) <= Dist(s.read, s.write, n)
          && s.reader.got <= Window(s.buff, s.read, s.write))
  }

  predicate WriterInv(s: State)
    requires Shape(s)
  {
    var n := |s.buff|;
    && (s.writer.WriterLoading? ==> Dist(s.read, s.write, n) <= Dist(s.writer.r, s.write, n))
    && (s.writer.WriterBusy? ==>
          && s.writer.w == s.write
          && Dist(s.read, s.write, n) <= Dist(s.writer.r, s.write, n)
          && forall i :: 0 <= i < s.writer.done ==> s.buff[At(s.write, i, n)] == s.writer.src[i])
  }

  /** The slots a reader may still copy from: the window it saw when it loaded the indices. */
  predicate MayStillCopy(s: State, slot: nat)
    requires Shape(s)
  {
    s.reader.ReaderBusy? &&
    exists k :: 0 <= k < Dist(s.reader.r, s.reader.w, |s.buff|) && slot == At(s.reader.r, k, |s.buff|)
  }

  /** The writer never stores into a byte the reader may still copy. */
  lemma WriterAvoidsReader(s: State)
    requires Inv(s) && Enabled(s, WriterCopyByte)
    ensures !MayStillCopy(s, WriterSlot(s))
    ensures forall k :: 0 <= k < Dist(s.read, s.write, |s.buff|) ==> WriterSlot(s) != At(s.read, k, |s.buff|)
  {
    var wr, n := s.writer, |s.buff|;
    WritePlanMeaning(wr.r, wr.w, n, |wr.src|);
    assert WriterSlot(s) == At(s.write, wr.done, n);
    forall k | 0 <= k < Dist(s.read, s.write, n)
      ensures WriterSlot(s) != At(s.read, k, n)
    {
      FreeSlotOutside(s.read, s.write, n, wr.done, k);
    }
  }

  /** Loading the indices and returning from a peek. */
  lemma ReaderStepKeepsInv(s: State, a: Action)
    requires Inv(s) && Enabled(s, a) && (a.ReaderLoadRead? || a.ReaderLoadWrite? || a.ReaderReturn?)
    ensures Inv(Do(s, a))
  {
  }

  /** A byte copied is the next one of the queue. */
  lemma ReaderCopyTakes(s: State)
    requires Inv(s) && Enabled(s, ReaderCopyByte)
    ensures s.reader.got + [s.buff[ReaderSlot(s)]] <= Window(s.buff, s.read, s.write)
  {
    CopyPlanMeaning(s.reader.r, s.reader.w, |s.buff|, s.reader.count);
    WindowElements(s.buff, s.read, s.write);
    assert ReaderSlot(s) == At(s.read, |s.reader.got|, |s.buff|);
  }

  lemma ReaderCopyKeepsInv(s: State)
    requires Inv(s) && Enabled(s, ReaderCopyByte)
    ensures Inv(Do(s, ReaderCopyByte))
  {
    ReaderCopyTakes(s);
  }

  /** Publishing the read index consumes exactly the bytes that it passes over. */
  lemma StoreReadTakes(s: State)
    requires Inv(s) && Enabled(s, ReaderStoreRead)
    ensures var s', k := Do(s, ReaderStoreRead), s.reader.count;
            && k <= Dist(s.read, s.write, |s.buff|)
            && s' == AfterStoreRead(s, k)
  {
    ReaderFinal(s.reader, |s.buff|);
    WindowDrop(s.buff, s.read, s.write, s.reader.count);
  }

  /** The reader has taken the first `k` bytes of the queue. */
  function AfterStoreRead(s: State, k: nat): (s': State)
    requires 0 < |s.buff| < 0x1_0000_0000 && s.read < |s.buff| && k <= |s.buff|
  {
    var read := At(s.read, k, |s.buff|);
    s.(read := read, reader := ReaderIdle, consumed := s.consumed + Window(s.buff, s.read, read))
  }

  lemma TakingKeepsInv(s: State, k: nat)
    requires Inv(s) && k <= Dist(s.read, s.write, |s.buff|)
    ensures Inv(AfterStoreRead(s, k))
  {
    var s' := AfterStoreRead(s, k);
    WindowDrop(s.buff, s.read, s.write, k);
    Regroup(s.consumed, Window(s.buff, s.read, s'.read), Window(s.buff, s'.read, s.write));
  }

  lemma Regroup(a: seq<Byte>, b: seq<Byte>, c: seq<Byte>)
    ensures a + (b + c) == (a + b) + c
  {
  }

  lemma StoreReadKeepsInv(s: State)
    requires Inv(s) && Enabled(s, ReaderStoreRead)
    ensures Inv(Do(s, ReaderStoreRead))
  {
    StoreReadTakes(s);
    TakingKeepsInv(s, s.reader.count);
  }

  lemma WriterCopyKeepsInv(s: State)
    requires Inv(s) && Enabled(s, WriterCopyByte)
    ensures Inv(Do(s, WriterCopyByte))
  {
    var s' := Do(s, WriterCopyByte);
    var wr, n := s.writer, |s.buff|;
    WritePlanMeaning(wr.r, wr.w, n, |wr.src|);
    WriterAvoidsReader(s);
    assert WriterSlot(s) == At(s.write, wr.done, n);
    WindowFrame(s.buff, s'.buff, s.read, s.write);
  }

  /** Publishing keeps the invariant if and only if the write is not the losing one. */
  lemma StoreWriteKeepsInvIff(s: State)
    requires Inv(s) && Enabled(s, WriterStoreWrite)
    ensures Inv(Do(s, WriterStoreWrite)) <==> !LosingStore(s, WriterStoreWrite)
  {
    var s' := Do(s, WriterStoreWrite);
    var wr, n := s.writer, |s.buff|;
    WritePlanMeaning(wr.r, wr.w, n, |wr.src|);
    if LosingStore(s, WriterStoreWrite) {
      assert |s'.published| - |s'.consumed| != Dist(s'.read, s'.write, n);
    } else {
      WindowAppend(s.buff, s.read, s.write, wr.src);
    }
  }

  /** The store that fills the last slot but one leaves one byte that nobody wrote before index 0. */
  lemma WindowToStart(b: seq<Byte>, r: nat, w: nat, src: seq<Byte>)
    requires 0 < r <= w && w + |src| == |b| - 1
    requires forall k :: 0 <= k < |src| ==> b[At(w, k, |b|)] == src[k]
    ensures Window(b, r, 0) == Window(b, r, w) + src + [b[|b| - 1]]
  {
    WindowAppend(b, r, w, src);
    WindowAppend(b, r, |b| - 1, [b[|b| - 1]]);
  }

  /**
   What a losing store does.  If the reader has not moved the queue becomes empty; if it has, the
   queue gets the bytes written and one more byte, from the last slot, that the writer never wrote.
   */
  lemma LosingStoreEffect(s: State)
    requires Inv(s) && Enabled(s, WriterStoreWrite) && LosingStore(s, WriterStoreWrite)
    ensures var s', queue := Do(s, WriterStoreWrite), Window(s.buff, s.read, s.write);
            && (s.read == 0 ==> Window(s'.buff, s'.read, s'.write) == [])
            && (s.read != 0 ==>
                  Window(s'.buff, s'.read, s'.write) == queue + s.writer.src + [s.buff[|s.buff| - 1]])
  {
    var wr, n := s.writer, |s.buff|;
    WritePlanMeaning(wr.r, wr.w, n, |wr.src|);
    assert s.read <= s.write && s.write + |wr.src| == n - 1;
    if s.read != 0 {
      WindowToStart(s.buff, s.read, s.write, wr.src);
    }
  }

  /** One step, by either side, from any state the invariant allows. */
  lemma StepKeepsInvIff(s: State, a: Action)
    requires Inv(s) && Enabled(s, a)
    ensures Inv(Do(s, a)) <==> !LosingStore(s, a)
  {
    match a
    case ReaderStoreRead => StoreReadKeepsInv(s);
    case ReaderCopyByte => ReaderCopyKeepsInv(s);
    case WriterCopyByte => WriterCopyKeepsInv(s);
    case WriterStoreWrite => StoreWriteKeepsInvIff(s);
    case WriterLoadRead(_) =>
    case WriterLoadWrite =>
    case _ => ReaderStepKeepsInv(s, a);
  }

  /** A run: an initial state and the steps taken, in the order they took effect. */
  ghost predicate IsRun(states: seq<State>, actions: seq<Action>) {
    && |states| == |actions| + 1
    && Init(states[0])
    && forall i :: 0 <= i < |actions| ==>
         Shape(states[i]) && Enabled(states[i], actions[i]) && states[i + 1] == Do(states[i], actions[i])
  }

  lemma {:induction false} RunKeepsInv(states: seq<State>, actions: seq<Action>, n: nat)
    requires IsRun(states, actions) && n <= |actions|
    requires forall i :: 0 <= i < n ==> Shape(states[i]) && !LosingStore(states[i], actions[i])
    ensures Inv(states[n])
  {
    if n > 0 {
      RunKeepsInv(states, actions, n - 1);
      StepKeepsInvIff(states[n - 1], actions[n - 1]);
    }
  }

  /**
   Safety over whole runs.  In every interleaving in which no write of all the space was
   planned with the read index seen at 0, the consumed bytes are a prefix of the published
   ones, the unconsumed rest is exactly what is readable, bytes being read or peeked are
   the next ones in the queue, and the writer stays off every slot the reader may copy.
   */
  lemma PortSafety(states: seq<State>, actions: seq<Action>, n: nat)
    requires IsRun(states, actions) && n <= |actions|
    requires forall i :: 0 <= i < n ==> Shape(states[i]) && !LosingStore(states[i], actions[i])
    ensures var s := states[n];
            && Shape(s)
            && s.consumed <= s.published
            && |s.published| - |s.consumed| == BytesReadable(s.read, s.write, |s.buff|)
            && (s.reader.ReaderBusy? ==> s.consumed + s.reader.got <= s.published)
            && (Enabled(s, WriterCopyByte) ==> !MayStillCopy(s, WriterSlot(s)))
  {
    RunKeepsInv(states, actions, n);
    if Enabled(states[n], WriterCopyByte) {
      WriterAvoidsReader(states[n]);
    }
  }

  /** A losing run exists: a port of size 2, one byte written while the read index is 0. */
  lemma LosingRunExists()
    returns (states: seq<State>, actions: seq<Action>)
    ensures IsRun(states, actions)
    ensures var s := states[|actions|];
            s.published == [7] && s.consumed == [] && s.read == s.write
  {
    var s0 := State([0, 0], 0, 0, ReaderIdle, WriterIdle, [], []);
    actions := [WriterLoadRead([7]), WriterLoadWrite, WriterCopyByte, WriterStoreWrite];
    var s1 := s0.(writer := WriterLoading([7], 0));
    var s2 := s0.(writer := WriterBusy([7], 0, 0, 0, 0));
    assert ComputeWrite(0, 0, 2, 1).Copy? && ComputeWrite(0, 0, 2, 1).final == 0;
    assert s2 == Do(s1, WriterLoadWrite);
    var s3 := Do(s2, WriterCopyByte);
    var s4 := Do(s3, WriterStoreWrite);
    states := [s0, s1, s2, s3, s4];
  }
}
