/** Finding the FILE records of the wanted numbers on the source device. */
module LocateRecords {
  import opened Options
  import opened LittleEndian
  import opened MachineInts
  import opened MftRecord
  import opened Devices

  /** The `k`th whole block can be read. */
  predicate BlockReadable(d: Device, k: nat) {
    Readable(d, RECORD_SIZE * k, RECORD_SIZE)
  }

  function Block(d: Device, k: nat): (b: seq<byte>)
    requires BlockReadable(d, k)
    ensures |b| == RECORD_SIZE
  {
    Range(d, RECORD_SIZE * k, RECORD_SIZE)
  }

  /** The first `n` blocks can all be read. */
  ghost predicate BlocksReadable(d: Device, n: nat) {
    forall j :: 0 <= j < n ==> BlockReadable(d, j)
  }

  /** The number in the header of block `k`, if the block holds a FILE record that can be restored. */
  function NumberAt(d: Device, k: nat): Option<nat>
    requires BlockReadable(d, k)
  {
    RecordNumberOf(Block(d, k))
  }

  /** Full-scan specification: block `k` is the first in the readable prefix with this number. */
  ghost predicate FirstBlock(d: Device, number: nat, k: nat) {
    && BlocksReadable(d, k + 1)
    && NumberAt(d, k) == Some(number)
    && forall j :: 0 <= j < k ==> NumberAt(d, j) != Some(number)
  }

  /** The result for the whole readable prefix of the device. */
  ghost predicate Located(d: Device, wanted: set<nat>, found: map<nat, seq<byte>>) {
    && (forall number :: number in found <==> number in wanted && exists k :: FirstBlock(d, number, k))
    && (forall number: nat, k: nat :: number in found && FirstBlock(d, number, k) ==> found[number] == Block(d, k))
  }

  lemma FirstBlockUnique(d: Device, number: nat, j: nat, k: nat)
    requires FirstBlock(d, number, j) && FirstBlock(d, number, k)
    ensures j == k
  {
  }

  /** A block with a number has a first block with that number at or before it. */
  lemma {:induction false} FirstBlockBefore(d: Device, number: nat, k: nat) returns (first: nat)
    requires BlocksReadable(d, k + 1) && NumberAt(d, k) == Some(number)
    ensures first <= k && FirstBlock(d, number, first)
  {
    if exists j :: 0 <= j < k && NumberAt(d, j) == Some(number) {
      var j :| 0 <= j < k && NumberAt(d, j) == Some(number);
      first := FirstBlockBefore(d, number, j);
    } else {
      first := k;
    }
  }

  /** Two results of the same search are equal. */
  lemma LocatedUnique(d: Device, wanted: set<nat>, a: map<nat, seq<byte>>, b: map<nat, seq<byte>>)
    requires Located(d, wanted, a) && Located(d, wanted, b)
    ensures a == b
  {
    assert a.Keys == b.Keys;
    forall number | number in a
      ensures a[number] == b[number]
    {
      var k :| FirstBlock(d, number, k);
    }
  }

  //
  // The scan, over the blocks read so far
  //

  /** Position `k` is the first with this number. */
  ghost predicate FirstAt(numbers: seq<Option<nat>>, number: nat, k: nat) {
    k < |numbers| && numbers[k] == Some(number) && forall j :: 0 <= j < k ==> numbers[j] != Some(number)
  }

  /** `found` is what the blocks read so far have of the wanted records. */
  ghost predicate LocatedIn(numbers: seq<Option<nat>>, blocks: seq<seq<byte>>, wanted: set<nat>,
                            found: map<nat, seq<byte>>)
    requires |numbers| == |blocks|
  {
    && (forall number :: number in found <==> number in wanted && Some(number) in numbers)
    && (forall number: nat, k: nat :: number in found && FirstAt(numbers, number, k) ==> found[number] == blocks[k])
  }

  /** One more block. */
  function WithBlock(number: Option<nat>, block: seq<byte>, wanted: set<nat>,
                     found: map<nat, seq<byte>>): map<nat, seq<byte>> {
    if number.Some? && number.value in wanted && number.value !in found then found[number.value := block] else found
  }

  lemma WithBlockLocates(numbers: seq<Option<nat>>, blocks: seq<seq<byte>>, wanted: set<nat>,
                         found: map<nat, seq<byte>>, number: Option<nat>, block: seq<byte>)
    requires |numbers| == |blocks| && LocatedIn(numbers, blocks, wanted, found)
    ensures LocatedIn(numbers + [number], blocks + [block], wanted, WithBlock(number, block, wanted, found))
  {
    var next, all := WithBlock(number, block, wanted, found), numbers + [number];
    forall n: nat, k: nat | n in next && FirstAt(all, n, k)
      ensures next[n] == (blocks + [block])[k]
    {
      assert forall j :: 0 <= j < |numbers| ==> numbers[j] == all[j];
      assert k < |numbers| ==> FirstAt(numbers, n, k) && Some(n) in numbers;
    }
  }

  /** The blocks read so far are those of the device. */
  ghost predicate AreBlocks(d: Device, numbers: seq<Option<nat>>, blocks: seq<seq<byte>>) {
    && |numbers| == |blocks|
    && BlocksReadable(d, |blocks|)
    && forall k :: 0 <= k < |blocks| ==> numbers[k] == NumberAt(d, k) && blocks[k] == Block(d, k)
  }

  lemma OneMoreBlock(d: Device, numbers: seq<Option<nat>>, blocks: seq<seq<byte>>)
    requires AreBlocks(d, numbers, blocks) && BlockReadable(d, |blocks|)
    ensures AreBlocks(d, numbers + [NumberAt(d, |blocks|)], blocks + [Block(d, |blocks|)])
  {
  }

  lemma FirstBlockIsFirstAt(d: Device, numbers: seq<Option<nat>>, blocks: seq<seq<byte>>, number: nat, k: nat)
    requires AreBlocks(d, numbers, blocks) && k < |blocks|
    ensures FirstBlock(d, number, k) <==> FirstAt(numbers, number, k)
  {
  }

  /** The scan may stop when everything wanted is found, and at the first block that cannot be read, because no
      later block is in the readable prefix. */
  lemma ScanMayStop(d: Device, numbers: seq<Option<nat>>, blocks: seq<seq<byte>>, wanted: set<nat>,
                    found: map<nat, seq<byte>>)
    requires AreBlocks(d, numbers, blocks) && LocatedIn(numbers, blocks, wanted, found)
    requires |found| >= |wanted| || !BlockReadable(d, |blocks|)
    ensures Located(d, wanted, found)
  {
    forall number | number in found
      ensures number in wanted && exists k :: FirstBlock(d, number, k)
    {
      var k :| 0 <= k < |numbers| && numbers[k] == Some(number);
      var first := FirstBlockBefore(d, number, k);
    }
    forall number, k | number in wanted && FirstBlock(d, number, k)
      ensures number in found && found[number] == Block(d, k)
    {
      if |found| >= |wanted| { SubsetOfSameSize(found.Keys, wanted); }
      FoundFirst(d, numbers, blocks, wanted, found, number, k);
    }
  }

  lemma FoundFirst(d: Device, numbers: seq<Option<nat>>, blocks: seq<seq<byte>>, wanted: set<nat>,
                   found: map<nat, seq<byte>>, number: nat, k: nat)
    requires AreBlocks(d, numbers, blocks) && LocatedIn(numbers, blocks, wanted, found)
    requires number in wanted && FirstBlock(d, number, k)
    requires number in found || !BlockReadable(d, |blocks|)
    ensures number in found && found[number] == Block(d, k)
  {
    if number in found {
      var j :| 0 <= j < |numbers| && numbers[j] == Some(number);
      var first := FirstBlockBefore(d, number, j);
      FirstBlockUnique(d, number, first, k);
    }
    FirstBlockIsFirstAt(d, numbers, blocks, number, k);
  }

  lemma {:induction false} SubsetOfSameSize(a: set<nat>, b: set<nat>)
    requires a <= b && |a| >= |b|
    ensures a == b
  {
    if x :| x in b && x !in a {
      assert a <= b - {x};
      SubsetSize(a, b - {x});
    }
  }

  lemma {:induction false} SubsetSize(a: set<nat>, b: set<nat>)
    requires a <= b
    ensures |a| <= |b|
  {
    if x :| x in a {
      SubsetSize(a - {x}, b - {x});
    }
  }

  method BlockNumber(block: seq<byte>) returns (number: Option<nat>)
    requires |block| == RECORD_SIZE
    ensures number == RecordNumberOf(block)
  {
    if block[..4] != FILE_SIGNATURE {
      return None;
    }
    number := RecordNumber(block);
  }

  /** Main result: for every wanted number, the first whole block in the readable prefix whose restored header has
      that number; nothing else is returned. */
  method LocateRecords(source: Source, wanted: set<nat>) returns (found: map<nat, seq<byte>>)
    modifies source`interruptions
    ensures Located(source.device, wanted, found)
  {
    found := map[];
    if wanted == {} {
      return;
    }
    var buffer := new byte[RECORD_SIZE](_ => 0);
    var offset: uint64 := 0;
    ghost var numbers, blocks := [], [];
    while |found| < |wanted|
      invariant offset == RECORD_SIZE * |blocks| && offset <= |source.device.bytes|
      invariant AreBlocks(source.device, numbers, blocks) && LocatedIn(numbers, blocks, wanted, found)
      decreases |source.device.bytes| - offset
    {
      var readable := ReadExactAt(source, buffer, RECORD_SIZE, offset);
      if !readable {
        break;
      }
      assert buffer[..] == Block(source.device, |blocks|);
      var number := BlockNumber(buffer[..]);
      OneMoreBlock(source.device, numbers, blocks);
      WithBlockLocates(numbers, blocks, wanted, found, number, buffer[..]);
      if number.Some? && number.value in wanted && number.value !in found {
        found := found[number.value := buffer[..]];
      }
      numbers, blocks := numbers + [number], blocks + [buffer[..]];
      offset := offset + RECORD_SIZE;
    }
    ScanMayStop(source.device, numbers, blocks, wanted, found);
  }
}
