/**
 The HAL stream: a queue of fixed-size records in a ring (src/hal/hal_lib.c, "hal stream
 implementation").  A record is one cell for each pin followed by a cell that holds its
 sample number; record `i` starts at cell `i * (pins + 1)` of one flat array.
 */
module HalStream {
  import opened Machine
  import opened Ring

  /** What one record holds: the pin cells and the sample number. */
  datatype Record = Record(cells: seq<int>, sample: int)

  function Advance(n: nat, depth: nat): (m: nat)
    requires n < depth
    ensures m == At(n, 1, depth)
  {
    if n + 1 >= depth then 0 else n + 1
  }

  /** The `k`-th sample number, counting from 1 in 32 bits. */
  function SampleNumber(k: nat): U32 { k % 0x1_0000_0000 }

  /** The first cell of record `i`. */
  function Base(i: nat, pins: nat): (b: nat) {
    if i == 0 then 0 else Base(i - 1, pins) + pins + 1
  }

  /** `Base` is the product the library computes as `in * stride`. */
  lemma {:induction false} BaseIsProduct(i: nat, pins: nat)
    ensures Base(i, pins) == i * (pins + 1)
  {
    if i > 0 {
      BaseIsProduct(i - 1, pins);
      assert i * (pins + 1) == (i - 1) * (pins + 1) + (pins + 1);
    }
  }

  /** Records follow one another without overlap. */
  lemma {:induction false} RecordsApart(i: nat, i': nat, pins: nat)
    requires i < i'
    ensures Base(i, pins) + pins < Base(i', pins)
  {
    if i + 1 < i' {
      RecordsApart(i, i' - 1, pins);
    }
  }

  /** Every cell of every record lies inside the data area of `depth * (pins + 1)` cells. */
  lemma CellInBounds(i: nat, j: nat, depth: nat, pins: nat)
    requires i < depth && j <= pins
    ensures Base(i, pins) + j < Base(depth, pins) == depth * (pins + 1)
  {
    RecordsApart(i, depth, pins);
    BaseIsProduct(depth, pins);
  }

  function RecordAt(data: seq<int>, i: nat, depth: nat, pins: nat): (r: Record)
    requires i < depth && |data| == Base(depth, pins)
    ensures |r.cells| == pins
  {
    RecordsApart(i, depth, pins);
    var base := Base(i, pins);
    Record(data[base..base + pins], data[base + pins])
  }

  /** The data area seen as `depth` records. */
  function Records(data: seq<int>, depth: nat, pins: nat): (rs: seq<Record>)
    requires |data| == Base(depth, pins)
    ensures |rs| == depth
    ensures forall i :: 0 <= i < depth ==> rs[i] == RecordAt(data, i, depth, pins)
  {
    seq(depth, i requires 0 <= i < depth => RecordAt(data, i, depth, pins))
  }

  /** The two data areas agree on every cell outside record `i`. */
  predicate AgreeOutside(data: seq<int>, data': seq<int>, i: nat, pins: nat) {
    |data| == |data'| &&
    forall c :: 0 <= c < |data| && !(Base(i, pins) <= c <= Base(i, pins) + pins) ==> data'[c] == data[c]
  }

  /** Stores inside one record change no other record. */
  lemma RecordFrame(data: seq<int>, data': seq<int>, depth: nat, pins: nat, i: nat, i': nat)
    requires |data| == Base(depth, pins) && i' < depth && i' != i
    requires AgreeOutside(data, data', i, pins)
    ensures RecordAt(data', i', depth, pins) == RecordAt(data, i', depth, pins)
  {
    RecordsApart(i', depth, pins);
    if i < i' {
      RecordsApart(i, i', pins);
    } else {
      RecordsApart(i', i, pins);
    }
    var base := Base(i', pins);
    assert data'[base..base + pins] == data[base..base + pins];
  }

  /** Storing one cell of a record changes that cell of it. */
  lemma StoreCellHere(data: seq<int>, depth: nat, pins: nat, i: nat, j: nat, v: int)
    requires |data| == Base(depth, pins) && i < depth && j <= pins
    requires Base(i, pins) + j < |data|
    ensures RecordAt(data[Base(i, pins) + j := v], i, depth, pins)
         == var r := RecordAt(data, i, depth, pins);
            if j < pins then r.(cells := r.cells[j := v]) else r.(sample := v)
  {
    RecordsApart(i, depth, pins);
    var base, data' := Base(i, pins), data[Base(i, pins) + j := v];
    if j < pins {
      assert data'[base..base + pins] == data[base..base + pins][j := v];
    } else {
      assert data'[base..base + pins] == data[base..base + pins];
    }
  }

  lemma StoreCell(data: seq<int>, depth: nat, pins: nat, i: nat, j: nat, v: int)
    requires |data| == Base(depth, pins) && i < depth && j <= pins
    requires Base(i, pins) + j < |data|
    ensures var rs, rs' := Records(data, depth, pins), Records(data[Base(i, pins) + j := v], depth, pins);
            rs' == rs[i := if j < pins then rs[i].(cells := rs[i].cells[j := v]) else rs[i].(sample := v)]
  {
    StoreCellHere(data, depth, pins, i, j, v);
    forall i' | 0 <= i' < depth && i' != i {
      RecordFrame(data, data[Base(i, pins) + j := v], depth, pins, i, i');
    }
  }

  /** Storing all the cells of a record replaces that record and no other. */
  lemma FillRecord(data: seq<int>, data': seq<int>, depth: nat, pins: nat, i: nat, r: Record)
    requires |data| == |data'| == Base(depth, pins) && i < depth && |r.cells| == pins
    requires Base(i, pins) + pins < |data|
    requires data'[Base(i, pins)..Base(i, pins) + pins] == r.cells && data'[Base(i, pins) + pins] == r.sample
    requires AgreeOutside(data, data', i, pins)
    ensures Records(data', depth, pins) == Records(data, depth, pins)[i := r]
  {
    forall i' | 0 <= i' < depth && i' != i {
      RecordFrame(data, data', depth, pins, i, i');
    }
  }

  predicate SameExcept(rs: seq<Record>, rs': seq<Record>, i: nat) {
    |rs| == |rs'| && forall k :: 0 <= k < |rs| && k != i ==> rs[k] == rs'[k]
  }

  /** Filling the slot at the write index leaves the queue alone until the index moves. */
  lemma FillFreeSlot(rs: seq<Record>, rs': seq<Record>, out: nat, in_: nat)
    requires SameExcept(rs', rs, in_) && out < |rs| && in_ < |rs|
    ensures Window(rs', out, in_) == Window(rs, out, in_)
    ensures Dist(out, in_, |rs|) < |rs| - 1
            ==> Window(rs', out, Advance(in_, |rs|)) == Window(rs, out, in_) + [rs'[in_]]
  {
    forall k | 0 <= k < Dist(out, in_, |rs|)
      ensures At(out, k, |rs|) != in_
    {
      FreeSlotOutside(out, in_, |rs|, 0, k);
    }
    WindowFrame(rs, rs', out, in_);
    if Dist(out, in_, |rs|) < |rs| - 1 {
      WindowAppend(rs', out, in_, [rs'[in_]]);
    }
  }

  /** What `hal_stream_depth` computes from the two indices. */
  function ReportedDepth(in_: nat, out: nat, depth: nat): int {
    if in_ < out then in_ - out + depth - 1 else in_ - out
  }

  class Stream {
    const depth: nat
    const pins: nat
    const data: array<int>
    var in_: nat
    var out: nat
    var thisSample: U32
    var overruns: nat
    var underruns: nat

    ghost predicate Valid()
      reads this
    {
      data.Length == Base(depth, pins) && in_ < depth && out < depth
    }

    ghost function Contents(): (q: seq<Record>)
      requires Valid()
      reads this, data
      ensures |q| == Dist(out, in_, depth)
    {
      Window(Records(data[..], depth, pins), out, in_)
    }

    constructor (depth: nat, pins: nat)
      requires depth > 0
      ensures Valid() && this.depth == depth && this.pins == pins && fresh(data)
      ensures Contents() == [] && thisSample == 0 && overruns == 0 && underruns == 0
    {
      this.depth, this.pins := depth, pins;
      BaseIsProduct(depth, pins);
      data := new int[depth * (pins + 1)];
      in_, out, thisSample, overruns, underruns := 0, 0, 0, 0, 0;
    }

    method Readable() returns (b: bool)
      requires Valid()
      ensures b <==> Contents() != []
    {
      b := in_ != out;
    }

    /** One slot is kept empty, so a stream of depth `n` holds at most `n - 1` records. */
    method Writable() returns (b: bool)
      requires Valid()
      ensures b <==> |Contents()| < depth - 1
    {
      b := Advance(in_, depth) != out;
    }

    /** `hal_stream_depth`: the occupancy, one too few whenever the queue wraps round. */
    method Depth() returns (d: int)
      requires Valid()
      ensures d == |Contents()| - (if in_ < out then 1 else 0)
      ensures d == |Contents()| <==> out <= in_
      ensures d == ReportedDepth(in_, out, depth)
    {
      d := in_ - out;
      if d < 0 {
        d := d + depth - 1;
      }
    }

    /** The record copy of a write: fills the slot at the write index and no other. */
    method FillSlot(buf: array<int>, sample: U32)
      requires Valid() && buf.Length == pins && buf != data
      modifies data
      ensures Records(data[..], depth, pins) == Records(old(data[..]), depth, pins)[in_ := Record(buf[..], sample)]
    {
      var base := Base(in_, pins);
      RecordsApart(in_, depth, pins);
      forall j | 0 <= j < pins {
        data[base + j] := buf[j];
      }
      data[base + pins] := sample;
      assert data[base..base + pins] == buf[..];
      FillRecord(old(data[..]), data[..], depth, pins, in_, Record(buf[..], sample));
    }

    /** `hal_stream_write`: appends one record with the next sample number, or counts an overrun. */
    method Write(buf: array<int>) returns (ok: bool)
      requires Valid() && buf.Length == pins && buf != data
      modifies this`in_, this`thisSample, this`overruns, data
      ensures Valid()
      ensures ok <==> |old(Contents())| < depth - 1
      ensures ok ==> thisSample == (old(thisSample) + 1) % 0x1_0000_0000
      ensures ok ==> Contents() == old(Contents()) + [Record(buf[..], thisSample)] && overruns == old(overruns)
      ensures !ok ==> Contents() == old(Contents()) && thisSample == old(thisSample)
      ensures !ok ==> overruns == (old(overruns) + 1) % ULONG
    {
      ok := Writable();
      if !ok {
        overruns := (overruns + 1) % ULONG;
        return;
      }
      ghost var rs := Records(data[..], depth, pins);
      thisSample := (thisSample + 1) % 0x1_0000_0000;
      FillSlot(buf, thisSample);
      FillFreeSlot(rs, Records(data[..], depth, pins), out, in_);
      in_ := Advance(in_, depth);
    }

    /** `hal_stream_read`: takes the oldest record with its sample number, or counts an underrun. */
    method Read(buf: array<int>) returns (ok: bool, sample: int)
      requires Valid() && buf.Length == pins && buf != data
      modifies this`out, this`underruns, buf
      ensures Valid()
      ensures ok <==> old(Contents()) != []
      ensures ok ==> Record(buf[..], sample) == old(Contents())[0]
      ensures ok ==> Contents() == old(Contents())[1..] && underruns == old(underruns)
      ensures !ok ==> Contents() == old(Contents()) && buf[..] == old(buf[..])
      ensures !ok ==> underruns == (old(underruns) + 1) % ULONG
    {
      sample := 0;
      ok := Readable();
      if !ok {
        underruns := (underruns + 1) % ULONG;
        return;
      }
      var newOut := Advance(out, depth);
      var base := Base(out, pins);
      RecordsApart(out, depth, pins);
      forall j | 0 <= j < pins {
        buf[j] := data[base + j];
      }
      sample := data[base + pins];
      assert Record(buf[..], sample) == RecordAt(data[..], out, depth, pins);
      assert data[..] == old(data[..]);
      WindowDrop(Records(data[..], depth, pins), out, in_, 1);
      out := newOut;
    }
  }
}
