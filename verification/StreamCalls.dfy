/**
 What the calls on a stream do while the other side is at work (src/hal/hal_lib.c,
 `hal_stream_write` and `hal_stream_read`): when a call is refused, what it adds or returns, and
 that it comes to an end.
 */
module StreamCalls {
  import opened Machine
  import opened Ring
  import opened HalStream
  import opened StreamProtocol

  predicate IsWriterAction(a: Action) { a.WriterBegin? || a.WriterCopyCell? || a.WriterStamp? || a.WriterStoreIn? }

  /** The number of records written and not yet returned. */
  function Queued(s: State): int { |s.written| - |s.returned| }

  lemma RunGoes(states: seq<State>, actions: seq<Action>, i: nat, j: nat)
    requires IsRun(states, actions) && j == i + 1 <= |actions|
    ensures Inv(states[i]) && Goes(states[i], actions[i], states[j])
  {
    RunKeepsInv(states, actions, i);
  }

  // ------------------------------------------------------------------- writing

  /** A write is refused if and only if depth - 1 records are queued, and then it only counts an overrun. */
  lemma WriteBeginsIff(s: State, buf: seq<int>)
    requires Inv(s) && Enabled(s, WriterBegin(buf))
    ensures var s' := Do(s, WriterBegin(buf));
            && (Queued(s) < s.depth - 1 ==> s' == s.(writer := s'.writer) && !s'.writer.WriterIdle? && s'.writer.buf == buf)
            && (Queued(s) >= s.depth - 1 ==> s' == s.(overruns := (s.overruns + 1) % ULONG))
  {
  }

  /** A write begins in step `m` and stores the index in step `e`. */
  ghost predicate WriteCall(actions: seq<Action>, m: nat, e: nat) {
    && m < e < |actions| && actions[m].WriterBegin? && actions[e] == WriterStoreIn
    && forall i :: m < i < e ==> !actions[i].WriterBegin? && !actions[i].WriterStoreIn?
  }

  lemma StepWritesNothing(s: State, a: Action)
    requires Shape(s) && Enabled(s, a) && !a.WriterBegin? && !a.WriterStoreIn?
    ensures Do(s, a).written == s.written
    ensures !s.writer.WriterIdle? ==> !Do(s, a).writer.WriterIdle? && Do(s, a).writer.buf == s.writer.buf
  {
  }

  /** The writer is at work on a record, and has not added it. */
  predicate Writing(s: State, buf: seq<int>, written: seq<Record>) {
    !s.writer.WriterIdle? && s.writer.buf == buf && s.written == written
  }

  lemma WritingGoes(s: State, a: Action, s': State, buf: seq<int>, written: seq<Record>)
    requires Inv(s) && Goes(s, a, s') && !a.WriterStoreIn?
    requires Writing(s, buf, written) || Begins(s, a, buf, written)
    ensures Writing(s', buf, written)
  {
    if a.WriterBegin? {
      WriteBeginsIff(s, buf);
    } else {
      StepWritesNothing(s, a);
    }
  }

  lemma WritingStep(states: seq<State>, actions: seq<Action>, k: nat, n: nat, buf: seq<int>, written: seq<Record>)
    requires IsRun(states, actions) && n == k + 1 <= |actions| && !actions[k].WriterStoreIn?
    requires Writing(states[k], buf, written) || Begins(states[k], actions[k], buf, written)
    ensures Writing(states[n], buf, written)
  {
    RunGoes(states, actions, k, n);
    WritingGoes(states[k], actions[k], states[n], buf, written);
  }

  /** A write begins that is not refused. */
  predicate Begins(s: State, a: Action, buf: seq<int>, written: seq<Record>) {
    a == WriterBegin(buf) && Queued(s) < s.depth - 1 && s.written == written
  }

  lemma {:induction false} WritingStays(states: seq<State>, actions: seq<Action>, m: nat, e: nat, n: nat)
    requires IsRun(states, actions) && WriteCall(actions, m, e) && m < n <= e
    requires Queued(states[m]) < states[m].depth - 1
    ensures Writing(states[n], actions[m].buf, states[m].written)
  {
    var k := n - 1;
    if k > m {
      WritingStays(states, actions, m, e, k);
    }
    WritingStep(states, actions, k, n, actions[m].buf, states[m].written);
  }

  lemma StoreInWrites(s: State)
    requires Inv(s) && Enabled(s, WriterStoreIn)
    ensures Do(s, WriterStoreIn).writer == WriterIdle
    ensures Do(s, WriterStoreIn).written == s.written + [Record(s.writer.buf, SampleNumber(|s.written| + 1))]
  {
  }

  /** A write that is not refused adds the record it was given, with the next number, whatever the reader does. */
  lemma WriteAdds(states: seq<State>, actions: seq<Action>, m: nat, e: nat)
    requires IsRun(states, actions) && WriteCall(actions, m, e) && Queued(states[m]) < states[m].depth - 1
    ensures states[e + 1].writer == WriterIdle
    ensures states[e + 1].written
         == states[m].written + [Record(actions[m].buf, SampleNumber(|states[m].written| + 1))]
  {
    WritingStays(states, actions, m, e, e);
    RunGoes(states, actions, e, e + 1);
    StoreInWrites(states[e]);
  }

  /** A writer that has begun can finish by its own steps. */
  lemma {:induction false} WriterFinishes(s: State) returns (actions: seq<Action>, s': State)
    requires Inv(s) && !s.writer.WriterIdle?
    ensures Leads(s, actions, s') && s'.writer == WriterIdle && forall a :: a in actions ==> IsWriterAction(a)
    decreases s.writer.WriterCopying?, if s.writer.WriterCopying? then s.pins - s.writer.done else 0
  {
    var a := if s.writer.WriterStamped? then WriterStoreIn
             else if s.writer.done < s.pins then WriterCopyCell else WriterStamp;
    var rest, s1 := [], Do(s, a);
    StepKeepsInv(s, a);
    if a == WriterStoreIn {
      s' := s1;
    } else {
      rest, s' := WriterFinishes(s1);
    }
    actions := [a] + rest;
    assert actions[1..] == rest;
  }

  // ------------------------------------------------------------------- reading

  /** A read is refused if and only if no record is queued, and then it only counts an underrun. */
  lemma ReadBeginsIff(s: State)
    requires Inv(s) && Enabled(s, ReaderBegin)
    ensures var s' := Do(s, ReaderBegin);
            && (Queued(s) > 0 ==> s' == s.(reader := s'.reader) && !s'.reader.ReaderIdle?)
            && (Queued(s) == 0 ==> s' == s.(underruns := (s.underruns + 1) % ULONG))
  {
  }

  /** A read begins in step `m` and stores the index in step `e`. */
  ghost predicate ReadCall(actions: seq<Action>, m: nat, e: nat) {
    && m < e < |actions| && actions[m] == ReaderBegin && actions[e] == ReaderStoreOut
    && forall i :: m < i < e ==> actions[i] != ReaderBegin && actions[i] != ReaderStoreOut
  }

  lemma StepReturnsNothing(s: State, a: Action)
    requires Shape(s) && Enabled(s, a) && a != ReaderBegin && a != ReaderStoreOut
    ensures Do(s, a).returned == s.returned && s.written <= Do(s, a).written
    ensures !s.reader.ReaderIdle? ==> !Do(s, a).reader.ReaderIdle?
  {
  }

  /** The reader is at work and has not returned the record; the writer may have added some. */
  predicate Reading(s: State, written: seq<Record>, returned: seq<Record>) {
    !s.reader.ReaderIdle? && s.returned == returned && written <= s.written
  }

  lemma ReadingGoes(s: State, a: Action, s': State, written: seq<Record>, returned: seq<Record>)
    requires Inv(s) && Goes(s, a, s') && a != ReaderStoreOut
    requires Reading(s, written, returned) || ReadBegins(s, a, written, returned)
    ensures Reading(s', written, returned)
  {
    if a == ReaderBegin {
      ReadBeginsIff(s);
    } else {
      StepReturnsNothing(s, a);
    }
  }

  lemma ReadingStep(states: seq<State>, actions: seq<Action>, k: nat, n: nat, written: seq<Record>, returned: seq<Record>)
    requires IsRun(states, actions) && n == k + 1 <= |actions| && actions[k] != ReaderStoreOut
    requires Reading(states[k], written, returned) || ReadBegins(states[k], actions[k], written, returned)
    ensures Reading(states[n], written, returned)
  {
    RunGoes(states, actions, k, n);
    ReadingGoes(states[k], actions[k], states[n], written, returned);
  }

  /** A read begins that is not refused. */
  predicate ReadBegins(s: State, a: Action, written: seq<Record>, returned: seq<Record>) {
    a == ReaderBegin && Queued(s) > 0 && s.returned == returned && s.written == written
  }

  lemma {:induction false} ReadingStays(states: seq<State>, actions: seq<Action>, m: nat, e: nat, n: nat)
    requires IsRun(states, actions) && ReadCall(actions, m, e) && m < n <= e && Queued(states[m]) > 0
    ensures Reading(states[n], states[m].written, states[m].returned)
  {
    var k := n - 1;
    if k > m {
      ReadingStays(states, actions, m, e, k);
    }
    ReadingStep(states, actions, k, n, states[m].written, states[m].returned);
  }

  lemma StoreOutReturns(s: State)
    requires Inv(s) && Enabled(s, ReaderStoreOut)
    ensures |s.returned| < |s.written| && Do(s, ReaderStoreOut).reader == ReaderIdle
    ensures Do(s, ReaderStoreOut).returned == s.returned + [s.written[|s.returned|]]
  {
  }

  /** A read that is not refused returns the oldest record queued when it began, whatever the writer does. */
  lemma ReadReturns(states: seq<State>, actions: seq<Action>, m: nat, e: nat)
    requires IsRun(states, actions) && ReadCall(actions, m, e) && Queued(states[m]) > 0
    ensures states[e + 1].reader == ReaderIdle && states[e].reader.ReaderDone?
    ensures var oldest := states[m].written[|states[m].returned|];
            states[e].reader.record == oldest && states[e + 1].returned == states[m].returned + [oldest]
  {
    ReadingStays(states, actions, m, e, e);
    RunGoes(states, actions, e, e + 1);
    StoreOutReturns(states[e]);
  }

  /** A reader that has begun can finish by its own steps. */
  lemma {:induction false} ReaderFinishes(s: State) returns (actions: seq<Action>, s': State)
    requires Inv(s) && !s.reader.ReaderIdle?
    ensures Leads(s, actions, s') && s'.reader == ReaderIdle && forall a :: a in actions ==> !IsWriterAction(a)
    decreases s.reader.ReaderCopying?, if s.reader.ReaderCopying? then s.pins - |s.reader.got| else 0
  {
    var a := if s.reader.ReaderDone? then ReaderStoreOut
             else if |s.reader.got| < s.pins then ReaderCopyCell else ReaderLoadSample;
    var rest, s1 := [], Do(s, a);
    StepKeepsInv(s, a);
    if a == ReaderStoreOut {
      s' := s1;
    } else {
      rest, s' := ReaderFinishes(s1);
    }
    actions := [a] + rest;
    assert actions[1..] == rest;
  }

  /** The actions, one after the other, lead from one state to the other. */
  predicate Leads(s: State, actions: seq<Action>, s': State)
    decreases |actions|
  {
    if actions == [] then s' == s
    else Shape(s) && Enabled(s, actions[0]) && Leads(Do(s, actions[0]), actions[1..], s')
  }

  /** An idle side can begin a call. */
  lemma CallsBegin(s: State, buf: seq<int>)
    requires Inv(s)
    ensures s.writer.WriterIdle? && |buf| == s.pins ==> Enabled(s, WriterBegin(buf))
    ensures s.reader.ReaderIdle? ==> Enabled(s, ReaderBegin)
  {
  }
}
