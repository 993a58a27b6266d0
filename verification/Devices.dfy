/** The source device: its contents, and reads that fail, are cut short or are interrupted. */
module Devices {
  import opened LittleEndian
  import opened MachineInts

  /** What is stored, and the offsets a read cannot return. Offsets of a device fit a signed word. */
  datatype DeviceData = DeviceData(bytes: seq<byte>, bad: set<nat>)

  type Device = d: DeviceData | |d.bytes| <= INT64_MAX witness DeviceData([], {})

  /** A range that lies on the device and has no bad byte; nothing has to be read for an empty one. */
  predicate Readable(d: Device, offset: nat, size: nat) {
    size == 0 || (offset + size <= |d.bytes| && forall i :: offset <= i < offset + size ==> i !in d.bad)
  }

  function Range(d: Device, offset: nat, size: nat): (s: seq<byte>)
    requires Readable(d, offset, size)
    ensures |s| == size
  {
    if size == 0 then [] else d.bytes[offset..offset + size]
  }

  /** Two adjacent ranges are one. */
  lemma RangeJoins(d: Device, offset: nat, first: nat, second: nat)
    requires Readable(d, offset, first)
    ensures Readable(d, offset, first + second) <==> Readable(d, offset + first, second)
    ensures Readable(d, offset, first + second) ==>
              Range(d, offset, first + second) == Range(d, offset, first) + Range(d, offset + first, second)
  {
  }

  datatype ReadResult = Count(n: nat) | Interrupted | Failed {
    /** How many bytes were delivered. */
    function Taken(): nat { if Count? then n else 0 }
  }

  class Source {
    const device: Device
    /** No call is interrupted or cut short. */
    const steady: bool
    /** How many more calls signals will interrupt. */
    var interruptions: nat
    /** Where the next sequential read starts. */
    var position: nat

    constructor (device: Device, interruptions: nat, steady: bool)
      ensures this.device == device && this.steady == steady && position == 0
    {
      this.device, this.interruptions, this.steady, this.position := device, interruptions, steady, 0;
    }

    /** One system call. It may return less than was asked for; zero bytes mean the end of the device. */
    method Pread(buffer: array<byte>, at: nat, count: nat, offset: sint64) returns (r: ReadResult)
      requires 0 < count && at + count <= buffer.Length
      modifies this`interruptions, buffer
      ensures interruptions <= old(interruptions)
      ensures r.Interrupted? ==> interruptions < old(interruptions)
      ensures r.Failed? ==> offset < 0 || (offset < |device.bytes| && offset in device.bad)
      ensures steady && 0 <= offset && Readable(device, offset, count) ==> r == Count(count)
      ensures r.Count? ==> 0 <= offset && r.n <= count
      ensures r == Count(0) ==> |device.bytes| <= offset
      ensures r.Count? && 0 < r.n ==>
                Readable(device, offset, r.n) && buffer[at..at + r.n] == Range(device, offset, r.n)
      ensures forall k :: 0 <= k < buffer.Length && !(at <= k < at + r.Taken()) ==> buffer[k] == old(buffer[k])
    {
      var interrupted: bool := *;
      if interrupted && interruptions > 0 && !steady {
        interruptions := interruptions - 1;
        return Interrupted;
      }
      if offset < 0 || (offset < |device.bytes| && offset in device.bad) {
        return Failed;
      }
      var n: nat := *;
      var done := 0;
      while done < count && (done == 0 || done < n || steady) && offset + done < |device.bytes| &&
        offset + done !in device.bad
        invariant 0 <= done <= count
        invariant done > 0 ==> Readable(device, offset, done)
        invariant forall k :: at <= k < at + done ==> buffer[k] == device.bytes[offset + (k - at)]
        invariant forall k :: 0 <= k < at || at + done <= k < buffer.Length ==> buffer[k] == old(buffer[k])
        modifies buffer
      {
        buffer[at + done] := device.bytes[offset + done];
        done := done + 1;
      }
      return Count(done);
    }

    /** A sequential read. */
    method Read(buffer: array<byte>, at: nat, count: nat) returns (r: ReadResult)
      requires 0 < count && at + count <= buffer.Length && position <= |device.bytes|
      modifies this, buffer
      ensures interruptions <= old(interruptions)
      ensures r.Interrupted? ==> interruptions < old(interruptions)
      ensures r.Failed? ==> position < |device.bytes| && position in device.bad
      ensures r.Count? ==> r.n <= count
      ensures r == Count(0) ==> position == |device.bytes|
      ensures r.Count? && 0 < r.n ==>
                && Readable(device, old(position), r.n)
                && buffer[at..at + r.n] == Range(device, old(position), r.n)
      ensures buffer[..at] == old(buffer[..at])
      ensures position == old(position) + r.Taken()
    {
      r := Pread(buffer, at, count, position);
      if r.Count? {
        position := position + r.n;
      }
    }
  }

  /** One call at an unsigned offset, which is converted to a signed word. */
  method PreadAt(source: Source, buffer: array<byte>, at: nat, count: nat, offset: uint64)
    returns (r: ReadResult)
    requires 0 < count && at + count <= buffer.Length
    modifies source`interruptions, buffer
    ensures source.interruptions <= old(source.interruptions)
    ensures r.Interrupted? ==> source.interruptions < old(source.interruptions)
    ensures r.Failed? || r == Count(0) ==> !Readable(source.device, offset, count)
    ensures r.Count? ==> r.n <= count
    ensures r.Count? && 0 < r.n ==>
              && Readable(source.device, offset, r.n)
              && buffer[at..at + r.n] == Range(source.device, offset, r.n)
    ensures forall k :: 0 <= k < buffer.Length && !(at <= k < at + r.Taken()) ==> buffer[k] == old(buffer[k])
  {
    OffsetIsExact(offset);
    r := source.Pread(buffer, at, count, ToSigned(offset));
  }

  /** One call of the loop of `ReadExactAt`. */
  method ReadMore(source: Source, buffer: array<byte>, done: nat, size: nat, offset: uint64) returns (r: ReadResult)
    requires done < size <= buffer.Length
    requires Readable(source.device, offset, done) && buffer[..done] == Range(source.device, offset, done)
    modifies source`interruptions, buffer
    ensures source.interruptions <= old(source.interruptions)
    ensures r.Interrupted? ==> source.interruptions < old(source.interruptions)
    ensures r.Failed? || r == Count(0) ==> !Readable(source.device, offset, size)
    ensures done + r.Taken() <= size && Readable(source.device, offset, done + r.Taken())
    ensures buffer[..done + r.Taken()] == Range(source.device, offset, done + r.Taken())
    ensures forall k :: size <= k < buffer.Length ==> buffer[k] == old(buffer[k])
  {
    ghost var before := buffer[..];
    r := PreadAt(source, buffer, done, size - done, offset + done);
    assert buffer[..done] == before[..done];
    if r.Count? && 0 < r.n {
      RangeGrows(source.device, offset, done, r.n, buffer[..]);
    } else if !r.Interrupted? {
      RestUnreadable(source.device, offset, done, size);
    }
  }

  lemma OffsetIsExact(offset: uint64)
    ensures if offset <= INT64_MAX then ToSigned(offset) == offset else ToSigned(offset) < 0
  {
  }

  lemma RestUnreadable(d: Device, offset: nat, done: nat, size: nat)
    requires done < size && !Readable(d, offset + done, size - done)
    ensures !Readable(d, offset, size)
  {
  }

  lemma RangeGrows(d: Device, offset: nat, done: nat, n: nat, s: seq<byte>)
    requires done + n <= |s| && Readable(d, offset, done) && Readable(d, offset + done, n)
    requires s[..done] == Range(d, offset, done) && s[done..done + n] == Range(d, offset + done, n)
    ensures Readable(d, offset, done + n) && s[..done + n] == Range(d, offset, done + n)
  {
    RangeJoins(d, offset, done, n);
    assert s[..done + n] == s[..done] + s[done..done + n];
  }

  /** Reads exactly `size` bytes. */
  method ReadExactAt(source: Source, buffer: array<byte>, size: nat, offset: uint64) returns (ok: bool)
    requires size <= buffer.Length
    modifies source`interruptions, buffer
    ensures ok == Readable(source.device, offset, size)
    ensures ok ==> buffer[..size] == Range(source.device, offset, size)
    ensures forall k :: size <= k < buffer.Length ==> buffer[k] == old(buffer[k])
  {
    var done := 0;
    while done < size
      invariant 0 <= done <= size && Readable(source.device, offset, done)
      invariant buffer[..done] == Range(source.device, offset, done)
      invariant forall k :: size <= k < buffer.Length ==> buffer[k] == old(buffer[k])
      decreases source.interruptions + size - done
    {
      var r := ReadMore(source, buffer, done, size, offset);
      match r {
        case Interrupted =>
        case Failed => return false;
        case Count(n) =>
          if n == 0 {
            return false;
          }
          done := done + n;
      }
    }
    return true;
  }
}
