/**
 The HAL port: a byte queue in a ring buffer with one slot kept empty
 (src/hal/hal_lib.c, "HAL PORT functions").  Read, peek, commit and clear belong to the
 single reader; write belongs to the single writer.
 */
module HalPort {
  import opened Machine
  import opened Ring

  newtype Byte = x: int | 0 <= x < 256

  /** Indices a port can hold: a port of size 0 has no slots and both indices at 0. */
  predicate Indices(read: U32, write: U32, size: U32) {
    if size == 0 then read == 0 && write == 0 else read < size && write < size
  }

  function BytesReadable(read: U32, write: U32, size: U32): (n: U32)
    requires Indices(read, write, size)
    ensures size > 0 ==> n == Dist(read, write, size)
    ensures size == 0 ==> n == 0
  {
    if size == 0 then 0
    else if read <= write then write - read
    else size - read + write
  }

  function BytesWritable(read: U32, write: U32, size: U32): (n: U32)
    requires Indices(read, write, size)
    ensures size > 0 ==> n == size - 1 - Dist(read, write, size)
    ensures size == 0 ==> n == 0
  {
    if size == 0 then 0
    else if write < read then read - write - 1
    else size - write + read - 1
  }

  /** A two-part copy: `end` bytes up to the end of the buffer, then `beg` bytes from its start. */
  datatype Plan = Refused | Copy(end: U32, beg: U32, final: U32) {
    /** The slot that holds the `k`-th byte of a copy that starts at `start`. */
    function Slot(start: U32, k: nat): (p: nat)
      requires Copy? && k < end + beg
    {
      if k < end then start + k else k - end
    }
  }

  function ComputeCopy(read: U32, write: U32, size: U32, count: U32): (p: Plan)
    requires Indices(read, write, size)
    ensures p.Copy? <==> count <= BytesReadable(read, write, size)
  {
    if count > BytesReadable(read, write, size) then Refused
    else if read <= write then Copy(count, 0, read + count)
    else
      var endAvail: U32 := size - read;
      if count < endAvail then Copy(count, 0, read + count)
      else Copy(endAvail, count - endAvail, count - endAvail)
  }

  /** The placement computed by `hal_port_write` between loading the indices and copying. */
  function ComputeWrite(read: U32, write: U32, size: U32, count: U32): (p: Plan)
    requires Indices(read, write, size)
    ensures p.Copy? <==> count <= BytesWritable(read, write, size)
  {
    var avail := BytesWritable(read, write, size);
    if count > avail then Refused
    else if write < read then Copy(count, 0, write + count)
    else
      var endAvail: U32 := if read == 0 then avail else size - write;
      if count < endAvail then Copy(count, 0, write + count)
      else Copy(endAvail, count - endAvail, count - endAvail)
  }

  /**
   The one write request that the placement gets wrong: the writer saw the read index at
   0 and asks for all the space there is.
   */
  predicate LosesData(read: U32, write: U32, size: U32, count: U32)
    requires Indices(read, write, size)
  {
    size > 0 && read == 0 && count == BytesWritable(read, write, size)
  }

  /** An accepted copy touches exactly the next `count` slots of the ring and moves past them. */
  lemma CopyPlanMeaning(read: U32, write: U32, size: U32, count: U32)
    requires Indices(read, write, size) && size > 0
    requires ComputeCopy(read, write, size, count).Copy?
    ensures var p := ComputeCopy(read, write, size, count);
            && p.end + p.beg == count
            && read + p.end <= size && p.beg <= size
            && p.final == At(read, count, size)
            && forall k :: 0 <= k < count ==> p.Slot(read, k) == At(read, k, size)
  {
  }

  /**
   An accepted write fills exactly the next `count` slots of the ring; its final position
   is just past them if and only if it is not the losing request, and 0 otherwise.
   */
  lemma WritePlanMeaning(read: U32, write: U32, size: U32, count: U32)
    requires Indices(read, write, size) && size > 0 && count > 0
    requires ComputeWrite(read, write, size, count).Copy?
    ensures var p := ComputeWrite(read, write, size, count);
            && p.end + p.beg == count
            && write + p.end <= size && p.beg <= size && p.final < size
            && (forall k :: 0 <= k < count ==> p.Slot(write, k) == At(write, k, size))
            && (p.final == At(write, count, size) <==> !LosesData(read, write, size, count))
            && (LosesData(read, write, size, count) ==> p.final == 0)
  {
  }

  class Port {
    var read: U32
    var write: U32
    const size: U32
    const buff: array<Byte>

    ghost predicate Valid()
      reads this
    {
      buff.Length == size && Indices(read, write, size)
    }

    /** The bytes queued in the port, oldest first. */
    ghost function Contents(): (q: seq<Byte>)
      requires Valid()
      reads this, buff
      ensures |q| == BytesReadable(read, write, size)
    {
      if size == 0 then [] else Window(buff[..], read, write)
    }

    constructor (size: U32)
      ensures Valid() && this.size == size && fresh(buff)
      ensures Contents() == []
    {
      this.size := size;
      buff := new Byte[size];
      read, write := 0, 0;
    }

    method Readable() returns (n: U32)
      requires Valid()
      ensures n == |Contents()|
    {
      n := BytesReadable(read, write, size);
    }

    method Writable() returns (n: U32)
      requires Valid()
      ensures size > 0 ==> n == size - 1 - |Contents()|
      ensures size == 0 ==> n == 0
    {
      n := BytesWritable(read, write, size);
    }

    /** The two `memcpy` calls of read and peek. */
    method CopyOut(dest: array<Byte>, p: Plan, ghost count: U32)
      requires Valid() && size > 0 && dest != buff
      requires p == ComputeCopy(read, write, size, count) && p.Copy? && count <= dest.Length
      modifies dest
      ensures dest[..count] == Contents()[..count]
      ensures forall i :: count <= i < dest.Length ==> dest[i] == old(dest[i])
    {
      CopyPlanMeaning(read, write, size, count);
      forall i | 0 <= i < p.end {
        dest[i] := buff[read + i];
      }
      forall i | 0 <= i < p.beg {
        dest[p.end + i] := buff[i];
      }
      assert forall i :: 0 <= i < count ==> dest[i] == buff[p.Slot(read, i)];
      WindowElements(buff[..], read, write);
    }

    /** The two `memcpy` calls of write. */
    method CopyIn(src: array<Byte>, p: Plan, ghost count: U32)
      requires Valid() && size > 0 && src != buff && 0 < count <= src.Length
      requires p == ComputeWrite(read, write, size, count) && p.Copy?
      modifies buff
      ensures Contents() == old(Contents())
      ensures forall i :: 0 <= i < count ==> buff[At(write, i, size)] == src[i]
    {
      WritePlanMeaning(read, write, size, count);
      forall i | 0 <= i < p.end {
        buff[write + i] := src[i];
      }
      forall i | 0 <= i < p.beg {
        buff[i] := src[p.end + i];
      }
      assert forall i :: 0 <= i < count ==> buff[p.Slot(write, i)] == src[i];
      forall k | 0 <= k < Dist(read, write, size)
        ensures buff[At(read, k, size)] == old(buff[At(read, k, size)])
      {
        forall i | 0 <= i < count
          ensures p.Slot(write, i) != At(read, k, size)
        {
          FreeSlotOutside(read, write, size, i, k);
        }
      }
      WindowFrame(old(buff[..]), buff[..], read, write);
    }
  }

  /** `hal_port_read`: takes the oldest `count` bytes, or does nothing and says so. */
  method PortRead(port: Port?, dest: array<Byte>, count: U32) returns (ok: bool)
    requires port != null ==> port.Valid() && dest != port.buff
    requires count <= dest.Length
    modifies if port == null then {} else {port}, dest
    ensures port != null ==> port.Valid() && port.write == old(port.write)
    ensures ok <==> port != null && 0 < count <= |old(port.Contents())|
    ensures ok ==> dest[..count] == old(port.Contents())[..count]
    ensures ok ==> port.Contents() == old(port.Contents())[count..]
    ensures !ok ==> dest[..] == old(dest[..]) && (port != null ==> port.Contents() == old(port.Contents()))
  {
    if port == null || count == 0 {
      return false;
    }
    var read, write := port.read, port.write;
    var p := ComputeCopy(read, write, port.size, count);
    if p.Refused? {
      return false;
    }
    port.CopyOut(dest, p, count);
    CopyPlanMeaning(read, write, port.size, count);
    WindowDrop(port.buff[..], read, write, count);
    port.read := p.final;
    return true;
  }

  /** `hal_port_peek`: like a read that leaves the bytes in the port. */
  method PortPeek(port: Port?, dest: array<Byte>, count: U32) returns (ok: bool)
    requires port != null ==> port.Valid() && dest != port.buff
    requires count <= dest.Length
    modifies dest
    ensures ok <==> port != null && 0 < count <= |old(port.Contents())|
    ensures ok ==> dest[..count] == old(port.Contents())[..count]
    ensures port != null ==> port.Contents() == old(port.Contents())
    ensures !ok ==> dest[..] == old(dest[..])
  {
    if port == null || count == 0 {
      return false;
    }
    var p := ComputeCopy(port.read, port.write, port.size, count);
    if p.Refused? {
      return false;
    }
    port.CopyOut(dest, p, count);
    return true;
  }

  /** `hal_port_peek_commit`: drops the oldest `count` bytes without copying them. */
  method PortPeekCommit(port: Port?, count: U32) returns (ok: bool)
    requires port != null ==> port.Valid()
    modifies if port == null then {} else {port}
    ensures port != null ==> port.Valid() && port.write == old(port.write)
    ensures ok <==> port != null && 0 < count <= |old(port.Contents())|
    ensures ok ==> port.Contents() == old(port.Contents())[count..]
    ensures !ok && port != null ==> port.Contents() == old(port.Contents())
  {
    if port == null || count == 0 {
      return false;
    }
    var p := ComputeCopy(port.read, port.write, port.size, count);
    if p.Refused? {
      return false;
    }
    CopyPlanMeaning(port.read, port.write, port.size, count);
    WindowDrop(port.buff[..], port.read, port.write, count);
    port.read := p.final;
    return true;
  }

  /** `hal_port_clear`: drops every byte in the port. */
  method PortClear(port: Port?)
    requires port != null ==> port.Valid()
    modifies if port == null then {} else {port}
    ensures port != null ==> port.Valid() && port.write == old(port.write) && port.Contents() == []
  {
    if port != null {
      port.read := port.write;
    }
  }

  /**
   `hal_port_write`: accepts exactly the requests that fit.  An accepted request appends its
   bytes if and only if it is not the losing one, which leaves the port empty.
   */
  method PortWrite(port: Port?, src: array<Byte>, count: U32) returns (ok: bool)
    requires port != null ==> port.Valid() && src != port.buff
    requires count <= src.Length
    modifies if port == null then {} else {port, port.buff}
    ensures port != null ==> port.Valid() && port.read == old(port.read)
    ensures ok <==> port != null && 0 < count <= old(BytesWritable(port.read, port.write, port.size))
    ensures ok ==> (port.Contents() == old(port.Contents()) + src[..count]
                    <==> !old(LosesData(port.read, port.write, port.size, count)))
    ensures ok && old(LosesData(port.read, port.write, port.size, count)) ==> port.Contents() == []
    ensures !ok && port != null ==> port.Contents() == old(port.Contents())
  {
    if port == null || count == 0 {
      return false;
    }
    var read, write := port.read, port.write;
    var p := ComputeWrite(read, write, port.size, count);
    if p.Refused? {
      return false;
    }
    port.CopyIn(src, p, count);
    WritePlanMeaning(read, write, port.size, count);
    WindowAppend(port.buff[..], read, write, src[..count]);
    port.write := p.final;
    return true;
  }
}
