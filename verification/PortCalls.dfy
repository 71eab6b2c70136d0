/**
 What the calls on a port do while the other side is at work (src/hal/hal_lib.c, "HAL PORT
 functions"): when a call goes ahead, what it takes or adds, and that it comes to an end.
 */
module PortCalls {
  import opened Machine
  import opened Ring
  import opened HalPort
  import opened PortProtocol

  predicate IsReaderAction(a: Action) {
    a.ReaderLoadRead? || a.ReaderLoadWrite? || a.ReaderCopyByte? || a.ReaderReturn? || a.ReaderStoreRead?
  }

  /** A run of which the first `n` steps include no losing store. */
  ghost predicate SoundRun(states: seq<State>, actions: seq<Action>, n: nat) {
    && IsRun(states, actions) && n <= |actions|
    && forall i :: 0 <= i < n ==> Shape(states[i]) && !LosingStore(states[i], actions[i])
  }

  lemma RunGoes(states: seq<State>, actions: seq<Action>, i: nat, j: nat)
    requires IsRun(states, actions) && j == i + 1 <= |actions|
    ensures Shape(states[i]) && Enabled(states[i], actions[i]) && states[j] == Do(states[i], actions[i])
  {
  }

  lemma SoundInv(states: seq<State>, actions: seq<Action>, n: nat, i: nat)
    requires SoundRun(states, actions, n) && i <= n
    ensures Inv(states[i])
  {
    RunKeepsInv(states, actions, i);
  }

  // ----------------------------------------------------------- calls of the reader

  /** A call loads the read index in step `l` and the write index in step `m`. */
  ghost predicate ReaderLoads(actions: seq<Action>, l: nat, m: nat) {
    && l < m < |actions| && actions[l].ReaderLoadRead? && actions[m] == ReaderLoadWrite
    && forall i :: l < i < m ==> !IsReaderAction(actions[i])
  }

  /** The call goes on and step `e` is its last. */
  ghost predicate ReaderEnds(actions: seq<Action>, m: nat, e: nat) {
    && m < e < |actions| && (actions[e] == ReaderStoreRead || actions[e] == ReaderReturn)
    && forall i :: m < i < e ==> !IsReaderAction(actions[i]) || actions[i] == ReaderCopyByte
  }

  /** Nothing is taken, and what the writer publishes comes behind what there was. */
  predicate OnlyPublished(s: State, s': State) {
    s'.consumed == s.consumed && s.published <= s'.published
  }

  lemma StepPublishes(s: State, a: Action)
    requires Shape(s) && Enabled(s, a) && a != ReaderStoreRead
    ensures OnlyPublished(s, Do(s, a))
    ensures !IsReaderAction(a) ==> Do(s, a).reader == s.reader
  {
  }

  lemma {:induction false} LoadedStays(states: seq<State>, actions: seq<Action>, l: nat, m: nat, n: nat)
    requires IsRun(states, actions) && ReaderLoads(actions, l, m) && l < n <= m
    ensures states[n].reader == ReaderLoading(actions[l].call, actions[l].count, states[l].read)
    ensures OnlyPublished(states[l], states[n])
  {
    var k := n - 1;
    RunGoes(states, actions, k, n);
    StepPublishes(states[k], actions[k]);
    if k > l {
      LoadedStays(states, actions, l, m, k);
    }
  }

  /** The bytes queued: published and not yet consumed. */
  function Queued(s: State): int { |s.published| - |s.consumed| }

  /** A clear always goes ahead, another call if and only if as many bytes are queued as it asks for. */
  predicate GoesAhead(call: ReadCall, count: nat, s: State) { call == Clear || count <= Queued(s) }

  /** How many bytes a call takes that goes ahead in a state. */
  function Taken(call: ReadCall, count: nat, s: State): int {
    match call
    case Clear => Queued(s)
    case Peek => 0
    case _ => count
  }

  lemma LoadDecides(s: State)
    requires Inv(s) && s.reader.ReaderLoading?
    ensures var rd := Do(s, ReaderLoadWrite).reader;
            if GoesAhead(s.reader.call, s.reader.count, s)
            then rd.ReaderBusy? && rd.call == s.reader.call && rd.got == []
                 && rd.count == (if rd.call == Clear then Queued(s) else s.reader.count)
            else rd == ReaderIdle
  {
  }

  /** A call of the reader goes ahead if and only if enough bytes are queued when it loads the write index. */
  lemma ReaderGoesAheadIff(states: seq<State>, actions: seq<Action>, l: nat, m: nat)
    requires SoundRun(states, actions, m) && ReaderLoads(actions, l, m)
    ensures states[m + 1].reader.ReaderBusy? <==> GoesAhead(actions[l].call, actions[l].count, states[m])
    ensures states[m + 1] == states[m].(reader := states[m + 1].reader)
    ensures states[m + 1].reader.ReaderBusy? || states[m + 1].reader == ReaderIdle
  {
    SoundInv(states, actions, m, m);
    LoadedStays(states, actions, l, m, m);
    RunGoes(states, actions, m, m + 1);
    LoadDecides(states[m]);
  }

  /** The call under way: its kind and how many bytes it is to cover. */
  predicate Busy(s: State, call: ReadCall, count: int) {
    s.reader.ReaderBusy? && s.reader.call == call && s.reader.count == count
  }

  lemma {:induction false} BusyStays(states: seq<State>, actions: seq<Action>, l: nat, m: nat, e: nat, n: nat)
    requires SoundRun(states, actions, m) && ReaderLoads(actions, l, m) && ReaderEnds(actions, m, e) && m < n <= e
    requires GoesAhead(actions[l].call, actions[l].count, states[m])
    ensures Busy(states[n], actions[l].call, if actions[l].call == Clear then Queued(states[m]) else actions[l].count)
    ensures OnlyPublished(states[m], states[n])
  {
    var k := n - 1;
    RunGoes(states, actions, k, n);
    if k > m {
      BusyStays(states, actions, l, m, e, k);
      StepPublishes(states[k], actions[k]);
    } else {
      SoundInv(states, actions, m, m);
      LoadedStays(states, actions, l, m, m);
      LoadDecides(states[m]);
    }
  }

  /** The bytes from place `c` on, as many as `k`, of a history and of a longer one. */
  lemma SamePart(p: seq<Byte>, p': seq<Byte>, c: nat, k: nat)
    requires p <= p' && c + k <= |p|
    ensures p[c..c + k] == p'[c..c + k] && p[..c + k] == p'[..c + k]
  {
  }

  /** The last step of a call that covers `k` bytes of the queue. */
  lemma EndTakes(s: State, a: Action)
    requires Inv(s) && Enabled(s, a) && (a == ReaderStoreRead || a == ReaderReturn)
    ensures var s', k, c := Do(s, a), s.reader.count, |s.consumed|;
            && c + k <= |s.published| && s'.reader == ReaderIdle && s'.published == s.published
            && s'.consumed == (if s.reader.call == Peek then s.consumed else s.published[..c + k])
            && (s.reader.call in {Read, Peek} ==> s.reader.got == s.published[c..c + k])
  {
    if a == ReaderStoreRead {
      StoreReadTakes(s);
      WindowDrop(s.buff, s.read, s.write, s.reader.count);
      TakenPart(s.consumed, Window(s.buff, s.read, s.write), s.reader.count);
    } else {
      TakenPart(s.consumed, Window(s.buff, s.read, s.write), s.reader.count);
    }
  }

  lemma TakenPart(before: seq<Byte>, q: seq<Byte>, k: nat)
    requires k <= |q|
    ensures (before + q)[..|before| + k] == before + q[..k]
    ensures (before + q)[|before|..|before| + k] == q[..k]
  {
  }

  /**
   What a call of the reader does, whatever the writer does meanwhile.  It consumes the bytes at the
   front of what was queued when it loaded the write index: all of them for a clear, none for a peek,
   as many as asked for otherwise; and a read or a peek delivers those bytes.
   */
  lemma ReaderTakes(states: seq<State>, actions: seq<Action>, l: nat, m: nat, e: nat)
    requires SoundRun(states, actions, e) && ReaderLoads(actions, l, m) && ReaderEnds(actions, m, e)
    requires GoesAhead(actions[l].call, actions[l].count, states[m])
    ensures var call, count, s, c := actions[l].call, actions[l].count, states[m], |states[m].consumed|;
            && states[e + 1].reader == ReaderIdle
            && 0 <= Taken(call, count, s) && c + Taken(call, count, s) <= |s.published|
            && states[e + 1].consumed == s.published[..c + Taken(call, count, s)]
            && (call in {Read, Peek} ==>
                  && c + count <= |s.published|
                  && states[e].reader.ReaderBusy? && states[e].reader.got == s.published[c..c + count])
  {
    var s, s1 := states[m], states[e];
    SoundInv(states, actions, e, m);
    SoundInv(states, actions, e, e);
    BusyStays(states, actions, l, m, e, e);
    RunGoes(states, actions, e, e + 1);
    EndTakes(s1, actions[e]);
    SamePart(s.published, s1.published, |s.consumed|, s1.reader.count);
    assert s.consumed == s.published[..|s.consumed|];
  }

  /** A clear that is not disturbed leaves the port empty. */
  lemma ClearEmpties(s: State)
    requires Inv(s) && s.reader.ReaderLoading? && s.reader.call == Clear
    ensures Enabled(Do(s, ReaderLoadWrite), ReaderStoreRead)
    ensures var s' := Do(Do(s, ReaderLoadWrite), ReaderStoreRead);
            s'.consumed == s'.published == s.published && s'.read == s'.write == s.write
  {
    var s1 := Do(s, ReaderLoadWrite);
    LoadDecides(s);
    StepKeepsInvIff(s, ReaderLoadWrite);
    EndTakes(s1, ReaderStoreRead);
  }

  // ----------------------------------------------------------- calls of the writer

  /** A write loads the read index in step `l` and the write index in step `m`. */
  ghost predicate WriterLoads(actions: seq<Action>, l: nat, m: nat) {
    && l < m < |actions| && actions[l].WriterLoadRead? && actions[m] == WriterLoadWrite
    && forall i :: l < i < m ==> IsReaderAction(actions[i])
  }

  /** The write goes on and publishes in step `e`. */
  ghost predicate WriterEnds(actions: seq<Action>, m: nat, e: nat) {
    && m < e < |actions| && actions[e] == WriterStoreWrite
    && forall i :: m < i < e ==> IsReaderAction(actions[i]) || actions[i] == WriterCopyByte
  }

  lemma ReaderStepPublishesNothing(s: State, a: Action)
    requires Shape(s) && Enabled(s, a) && IsReaderAction(a)
    ensures Do(s, a).writer == s.writer && Do(s, a).published == s.published && Do(s, a).write == s.write
  {
  }

  lemma {:induction false} LoadedForWrite(states: seq<State>, actions: seq<Action>, l: nat, m: nat, n: nat)
    requires IsRun(states, actions) && WriterLoads(actions, l, m) && l < n <= m
    ensures states[n].writer == WriterLoading(actions[l].src, states[l].read)
    ensures states[n].published == states[l].published && states[n].write == states[l].write
  {
    var k := n - 1;
    RunGoes(states, actions, k, n);
    if k > l {
      LoadedForWrite(states, actions, l, m, k);
      ReaderStepPublishesNothing(states[k], actions[k]);
    }
  }

  /**
   A write goes ahead if and only if its bytes fit behind what was queued when it loaded the read
   index, one slot being kept empty.
   */
  lemma WriterGoesAheadIff(states: seq<State>, actions: seq<Action>, l: nat, m: nat)
    requires SoundRun(states, actions, m) && WriterLoads(actions, l, m)
    ensures states[m + 1].writer.WriterBusy? <==> |actions[l].src| <= |states[l].buff| - 1 - Queued(states[l])
    ensures states[m + 1] == states[m].(writer := states[m + 1].writer)
    ensures states[m + 1].writer.WriterBusy? || states[m + 1].writer == WriterIdle
  {
    SoundInv(states, actions, m, l);
    LoadedForWrite(states, actions, l, m, m);
    RunGoes(states, actions, m, m + 1);
    SizeStays(states, actions, l, m);
  }

  lemma {:induction false} SizeStays(states: seq<State>, actions: seq<Action>, l: nat, n: nat)
    requires IsRun(states, actions) && l <= n <= |actions|
    ensures |states[n].buff| == |states[l].buff|
  {
    if l < n {
      var k := n - 1;
      RunGoes(states, actions, k, n);
      SizeStays(states, actions, l, k);
    }
  }

  lemma {:induction false} WritingStays(states: seq<State>, actions: seq<Action>, l: nat, m: nat, e: nat, n: nat)
    requires SoundRun(states, actions, m) && WriterLoads(actions, l, m) && WriterEnds(actions, m, e) && m < n <= e
    requires states[m + 1].writer.WriterBusy?
    ensures states[n].writer.WriterBusy? && states[n].writer.src == actions[l].src
    ensures states[n].published == states[l].published
  {
    var k := n - 1;
    RunGoes(states, actions, k, n);
    if k > m {
      WritingStays(states, actions, l, m, e, k);
      if IsReaderAction(actions[k]) {
        ReaderStepPublishesNothing(states[k], actions[k]);
      }
    } else {
      LoadedForWrite(states, actions, l, m, m);
    }
  }

  /** A write that goes ahead publishes its bytes behind those published when it began, whatever the reader does. */
  lemma WriterPublishes(states: seq<State>, actions: seq<Action>, l: nat, m: nat, e: nat)
    requires SoundRun(states, actions, e) && WriterLoads(actions, l, m) && WriterEnds(actions, m, e)
    requires states[m + 1].writer.WriterBusy?
    ensures states[e + 1].writer == WriterIdle && states[e + 1].consumed == states[e].consumed
    ensures states[e + 1].published == states[l].published + actions[l].src
  {
    WritingStays(states, actions, l, m, e, e);
    RunGoes(states, actions, e, e + 1);
  }

  // ------------------------------------------------------------- calls come to an end

  /** The actions, one after the other, lead from one state to the other. */
  predicate Leads(s: State, actions: seq<Action>, s': State)
    decreases |actions|
  {
    if actions == [] then s' == s
    else Shape(s) && Enabled(s, actions[0]) && Leads(Do(s, actions[0]), actions[1..], s')
  }

  /** A reader that has gone ahead can finish by its own steps, one for each byte it copies and one more. */
  lemma {:induction false} ReaderFinishes(s: State) returns (actions: seq<Action>, s': State)
    requires Inv(s) && s.reader.ReaderBusy?
    ensures Leads(s, actions, s') && s'.reader == ReaderIdle && forall a :: a in actions ==> IsReaderAction(a)
    ensures |actions| == 1 + if s.reader.call in {Read, Peek} then s.reader.count - |s.reader.got| else 0
    decreases s.reader.count - |s.reader.got|
  {
    if s.reader.call in {Read, Peek} && |s.reader.got| < s.reader.count {
      StepKeepsInvIff(s, ReaderCopyByte);
      var rest;
      rest, s' := ReaderFinishes(Do(s, ReaderCopyByte));
      actions := [ReaderCopyByte] + rest;
      assert actions[1..] == rest;
    } else {
      var last := if s.reader.call == Peek then ReaderReturn else ReaderStoreRead;
      actions, s' := [last], Do(s, last);
      assert Leads(s', actions[1..], s');
    }
  }

  /** And so can a writer. */
  lemma {:induction false} WriterFinishes(s: State) returns (actions: seq<Action>, s': State)
    requires Inv(s) && s.writer.WriterBusy?
    ensures Leads(s, actions, s') && s'.writer == WriterIdle && forall a :: a in actions ==> !IsReaderAction(a)
    ensures |actions| == 1 + |s.writer.src| - s.writer.done
    decreases |s.writer.src| - s.writer.done
  {
    if s.writer.done < |s.writer.src| {
      StepKeepsInvIff(s, WriterCopyByte);
      var rest;
      rest, s' := WriterFinishes(Do(s, WriterCopyByte));
      actions := [WriterCopyByte] + rest;
      assert actions[1..] == rest;
    } else {
      actions, s' := [WriterStoreWrite], Do(s, WriterStoreWrite);
      assert Leads(s', actions[1..], s');
    }
  }

  /** An idle side can begin any call, and the second load follows the first. */
  lemma CallsBegin(s: State, call: ReadCall, count: U32, src: seq<Byte>)
    requires Inv(s)
    ensures s.reader.ReaderIdle? && (call == Clear || count > 0) ==>
              && Enabled(s, ReaderLoadRead(call, count))
              && Enabled(Do(s, ReaderLoadRead(call, count)), ReaderLoadWrite)
    ensures s.writer.WriterIdle? && 0 < |src| < 0x1_0000_0000 ==>
              && Enabled(s, WriterLoadRead(src))
              && Enabled(Do(s, WriterLoadRead(src)), WriterLoadWrite)
  {
  }
}
