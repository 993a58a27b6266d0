/** FILE records of the master file table: fixup, the attribute walk, names and data attributes. */
module MftRecord {
  import opened Options
  import opened Bits
  import opened Sequences
  import opened LittleEndian
  import opened MachineInts
  import opened DataRuns
  import opened UpdateSequence
  import opened Utf

  const RECORD_SIZE: nat := 1024
  const FILE_SIGNATURE: seq<byte> := [0x46, 0x49, 0x4C, 0x45]
  const ATTRIBUTE_FILE_NAME: nat := 0x30
  const ATTRIBUTE_DATA: nat := 0x80
  const ATTRIBUTE_END: nat := 0xFFFF_FFFF

  datatype MftFileName = MftFileName(parentRef: nat, name: seq<byte>, nameNamespace: byte, flags: nat,
                                     allocatedSize: nat, realSize: nat, isDirectory: bool)
  datatype MftRecord = MftRecord(recordIdGuess: nat, offset: nat, names: seq<MftFileName>)
  datatype DataAttribute = DataAttribute(resident: bool, residentData: seq<byte>, runs: seq<DataRun>, realSize: uint64)

  //
  // What a record means
  //

  predicate HasSignature(input: seq<byte>) {
    |input| == RECORD_SIZE && input[..4] == FILE_SIGNATURE
  }

  /** The record with its sector trailers restored. */
  function RestoredRecord(input: seq<byte>): (r: Option<seq<byte>>)
    ensures r.Some? ==> |r.value| == RECORD_SIZE
  {
    if HasSignature(input) && Restored(input).ok then Some(Restored(input).bytes) else None
  }

  /** An attribute header at `at` that the walks accept; the last attribute is followed by an end marker. */
  predicate AttributeAt(b: seq<byte>, at: nat) {
    && at + 16 <= |b|
    && Word32(b, at) != ATTRIBUTE_END
    && 16 <= Word32(b, at + 4)
    && at + Word32(b, at + 4) <= |b|
  }

  function AttributeEnd(b: seq<byte>, at: nat): nat
    requires AttributeAt(b, at)
  {
    at + Word32(b, at + 4)
  }

  /** Offsets of the attributes from `at` on. */
  function AttributesFrom(b: seq<byte>, at: nat): (offsets: seq<nat>)
    ensures forall o :: o in offsets ==> AttributeAt(b, o)
    decreases |b| - at
  {
    if AttributeAt(b, at) then [at] + AttributesFrom(b, AttributeEnd(b, at)) else []
  }

  /** Where the content of the name attribute at `at` starts and ends, if it is one and they lie in the record. */
  function NameBounds(b: seq<byte>, at: nat): (r: Option<(nat, nat)>)
    requires AttributeAt(b, at)
    ensures r.Some? ==> r.value.0 + 66 <= |b| && r.value.1 <= |b|
  {
    if Word32(b, at) != ATTRIBUTE_FILE_NAME || b[at + 8] != 0 || at + 22 > |b| then None
    else
      var start := at + Word16(b, at + 20);
      var end := start + Word32(b, at + 16);
      if start + 66 > |b| || end > |b| then None else Some((start, end))
  }

  /** The name attribute at `at`, if it is one whose contents lie inside the record and whose text is not empty. */
  function FileNameAt(b: seq<byte>, at: nat, recordIsDirectory: bool): Option<MftFileName>
    requires AttributeAt(b, at)
  {
    var bounds := NameBounds(b, at);
    if bounds.None? then None else FileNameContent(b, bounds.value.0, bounds.value.1, recordIsDirectory)
  }

  function FileNameContent(b: seq<byte>, start: nat, end: nat, recordIsDirectory: bool): Option<MftFileName>
    requires start + 66 <= |b| && end <= |b|
  {
    var text := NameText(b, start, end);
    if text.None? then None else Some(NamedFields(b, start, text.value, recordIsDirectory))
  }

  /** The text of a name attribute, unless it overruns its content or is empty. */
  function NameText(b: seq<byte>, start: nat, end: nat): Option<seq<byte>>
    requires start + 66 <= |b| && end <= |b|
  {
    var nameLength: nat := b[start + 64];
    var nameBytes := nameLength * 2;
    var nameStart := start + 66;
    if nameStart + nameBytes > end then None
    else
      var text := Utf8Name(b[nameStart..nameStart + nameBytes]);
      if text == [] then None else Some(text)
  }

  function NamedFields(b: seq<byte>, start: nat, name: seq<byte>, recordIsDirectory: bool): MftFileName
    requires start + 66 <= |b|
  {
    var flags := Word32(b, start + 56);
    MftFileName(Word64(b, start) % 0x1_0000_0000_0000, name, b[start + 65], flags,
                Word64(b, start + 40), Word64(b, start + 48),
                recordIsDirectory || flags / 0x1000_0000 % 2 == 1)
  }

  function OneOrNone<T>(o: Option<T>): seq<T> {
    if o.Some? then [o.value] else []
  }

  function NamesAt(b: seq<byte>, offsets: seq<nat>, recordIsDirectory: bool): seq<MftFileName>
    requires forall o :: o in offsets ==> AttributeAt(b, o)
  {
    if offsets == [] then []
    else
      var name, rest := FileNameAt(b, offsets[0], recordIsDirectory), NamesAt(b, offsets[1..], recordIsDirectory);
      if name.None? then rest else [name.value] + rest
  }

  /** The names found from `at` on. */
  function NamesFrom(b: seq<byte>, at: nat, recordIsDirectory: bool): seq<MftFileName> {
    NamesAt(b, AttributesFrom(b, at), recordIsDirectory)
  }

  /** Compressed and encrypted attributes are not read. */
  predicate PlainFlags(flags: nat) {
    flags % 2 == 0 && flags / 0x4000 % 2 == 0
  }

  /** The unnamed plain data attribute at `at`, if it is one and it can be read. */
  function DataAt(b: seq<byte>, at: nat): Option<DataAttribute>
    requires AttributeAt(b, at)
  {
    if Word32(b, at) != ATTRIBUTE_DATA || b[at + 9] != 0 || !PlainFlags(Word16(b, at + 12)) then None
    else if b[at + 8] == 0 then ResidentAt(b, at)
    else if b[at + 8] == 1 then NonResidentAt(b, at)
    else None
  }

  function ResidentAt(b: seq<byte>, at: nat): Option<DataAttribute>
    requires AttributeAt(b, at)
  {
    if at + 22 > |b| then None
    else
      var length := Word32(b, at + 16);
      var start := at + Word16(b, at + 20);
      if start + length > AttributeEnd(b, at) then None
      else Some(DataAttribute(true, b[start..start + length], [], length))
  }

  function NonResidentAt(b: seq<byte>, at: nat): Option<DataAttribute>
    requires AttributeAt(b, at)
  {
    if at + 56 > |b| then None
    else
      var start := at + Word16(b, at + 32);
      if start >= AttributeEnd(b, at) then None
      else
        var runs := ParsedRuns(b, start, AttributeEnd(b, at), 0);
        if runs.None? then None else Some(DataAttribute(false, [], runs.value, Word64(b, at + 48)))
  }

  function DataAttributesAt(b: seq<byte>, offsets: seq<nat>): seq<DataAttribute>
    requires forall o :: o in offsets ==> AttributeAt(b, o)
  {
    if offsets == [] then []
    else
      var data, rest := DataAt(b, offsets[0]), DataAttributesAt(b, offsets[1..]);
      if data.None? then rest else [data.value] + rest
  }

  function DataFrom(b: seq<byte>, at: nat): seq<DataAttribute> {
    DataAttributesAt(b, AttributesFrom(b, at))
  }

  /** Where a restored record says its attributes start. */
  function FirstAttribute(b: seq<byte>): nat
    requires |b| == RECORD_SIZE
  {
    Word16(b, 0x14)
  }

  /** What parsing a record at byte `offset` of the source yields. */
  function ParsedRecord(input: seq<byte>, offset: nat): Option<MftRecord> {
    match RestoredRecord(input)
    case None => None
    case Some(b) =>
      var number := Word32(b, 0x2C);
      var isDirectory := Word16(b, 0x16) / 2 % 2 == 1;
      var names := NamesFrom(b, FirstAttribute(b), isDirectory);
      if names == [] then None
      else Some(MftRecord(if number != 0 then number else offset / RECORD_SIZE, offset, names))
  }

  /** The number in the record's header. */
  function RecordNumberOf(input: seq<byte>): Option<nat> {
    var b := RestoredRecord(input);
    if b.Some? then Some(Word32(b.value, 0x2C)) else None
  }

  function DataAttributesOf(input: seq<byte>): seq<DataAttribute> {
    match RestoredRecord(input)
    case None => []
    case Some(b) => DataFrom(b, FirstAttribute(b))
  }

  //
  // The parser
  //

  /** Works on a copy, so a failed fixup leaves the caller's bytes alone. */
  method RestoreRecord(input: seq<byte>) returns (r: Option<seq<byte>>)
    ensures r == RestoredRecord(input)
  {
    if |input| != RECORD_SIZE || input[..4] != FILE_SIGNATURE {
      return None;
    }
    var bytes := new byte[|input|](i requires 0 <= i < |input| => input[i]);
    assert bytes[..] == input;
    var ok := RestoreUsa(bytes);
    if !ok {
      return None;
    }
    return Some(bytes[..]);
  }

  method TestBit(word: nat, k: nat) returns (isSet: bool)
    ensures isSet == (word / Pow2(k) % 2 == 1)
  {
    AndSingleBit(word, k);
    return BitAnd(word, Pow2(k)) != 0;
  }

  method BaseFileRef(fileRef: nat) returns (r: nat)
    ensures r == fileRef % 0x1_0000_0000_0000
  {
    Pow2Of64();
    AndLowMask(fileRef, 48);
    return BitAnd(fileRef, 0x0000_FFFF_FFFF_FFFF);
  }

  method IsDirectoryName(flags: nat) returns (r: bool)
    ensures r == (flags / 0x1000_0000 % 2 == 1)
  {
    Pow2NextByte(20);
    Pow2NextByte(12);
    assert Pow2(12) == 0x1000;
    r := TestBit(flags, 28);
  }

  method HasPlainFlags(flags: nat) returns (r: bool)
    ensures r == PlainFlags(flags)
  {
    assert Pow2(13) == 0x2000;
    AndSingleBit(flags / 2, 13);
    assert flags / 2 / 0x2000 == flags / 0x4000;
    return BitAnd(flags, 0x4001) == 0;
  }

  method ReadNameBounds(b: seq<byte>, at: nat) returns (r: Option<(nat, nat)>)
    requires AttributeAt(b, at)
    ensures r == NameBounds(b, at)
  {
    var attrType := ReadU32(b, at);
    if attrType.value != ATTRIBUTE_FILE_NAME || b[at + 8] != 0 {
      return None;
    }
    var contentLen := ReadU32(b, at + 16);
    var contentOffset := ReadU16(b, at + 20);
    if contentLen.None? || contentOffset.None? {
      return None;
    }
    var start := at + contentOffset.value;
    var end := start + contentLen.value;
    if start + 66 > |b| || end > |b| {
      return None;
    }
    return Some((start, end));
  }

  method ReadFileName(b: seq<byte>, at: nat, recordIsDirectory: bool) returns (r: Option<MftFileName>)
    requires AttributeAt(b, at)
    ensures r == FileNameAt(b, at, recordIsDirectory)
  {
    var bounds := ReadNameBounds(b, at);
    if bounds.None? {
      return None;
    }
    r := ReadFileNameContent(b, bounds.value.0, bounds.value.1, recordIsDirectory);
  }

  method ReadFileNameContent(b: seq<byte>, start: nat, end: nat, recordIsDirectory: bool)
    returns (r: Option<MftFileName>)
    requires start + 66 <= |b| && end <= |b|
    ensures r == FileNameContent(b, start, end, recordIsDirectory)
  {
    var text := ReadNameText(b, start, end);
    if text.None? {
      return None;
    }
    var fileName := ReadNamedFields(b, start, text.value, recordIsDirectory);
    return Some(fileName);
  }

  method ReadNameText(b: seq<byte>, start: nat, end: nat) returns (r: Option<seq<byte>>)
    requires start + 66 <= |b| && end <= |b|
    ensures r == NameText(b, start, end)
  {
    var nameLength: nat := b[start + 64];
    var nameBytes := nameLength * 2;
    var nameStart := start + 66;
    if nameStart + nameBytes > end {
      return None;
    }
    var name := Utf16leToUtf8(b[nameStart..nameStart + nameBytes]);
    if name == [] {
      return None;
    }
    return Some(name);
  }

  method ReadNamedFields(b: seq<byte>, start: nat, name: seq<byte>, recordIsDirectory: bool) returns (r: MftFileName)
    requires start + 66 <= |b|
    ensures r == NamedFields(b, start, name, recordIsDirectory)
  {
    var parent := ReadU64(b, start);
    var allocatedSize := ReadU64(b, start + 40);
    var realSize := ReadU64(b, start + 48);
    var flags := ReadU32(b, start + 56);
    var parentRef := BaseFileRef(parent.value);
    var nameIsDirectory := IsDirectoryName(flags.value);
    return MftFileName(parentRef, name, b[start + 65], flags.value, allocatedSize.value, realSize.value,
                       recordIsDirectory || nameIsDirectory);
  }

  /** Reads an attribute header the way both walks do and gives the next offset; None stops the walk. */
  method ReadHeader(b: seq<byte>, at: nat) returns (next: Option<nat>)
    requires at + 16 <= |b|
    ensures next == if AttributeAt(b, at) then Some(AttributeEnd(b, at)) else None
  {
    var attrType := ReadU32(b, at);
    if attrType.value == ATTRIBUTE_END {
      return None;
    }
    var length := ReadU32(b, at + 4);
    if length.value < 16 || at + length.value > |b| {
      return None;
    }
    return Some(at + length.value);
  }

  lemma AttributesStep(b: seq<byte>, at: nat, visited: seq<nat>)
    requires AttributeAt(b, at)
    ensures visited + AttributesFrom(b, at) == visited + [at] + AttributesFrom(b, AttributeEnd(b, at))
  {
  }

  lemma NamesStep(b: seq<byte>, at: nat, recordIsDirectory: bool, names: seq<MftFileName>)
    requires AttributeAt(b, at)
    ensures names + NamesFrom(b, at, recordIsDirectory) ==
            names + OneOrNone(FileNameAt(b, at, recordIsDirectory)) +
              NamesFrom(b, AttributeEnd(b, at), recordIsDirectory)
  {
    FirstName(b, at, AttributesFrom(b, AttributeEnd(b, at)), recordIsDirectory);
    Regroup(names, OneOrNone(FileNameAt(b, at, recordIsDirectory)),
            NamesFrom(b, AttributeEnd(b, at), recordIsDirectory));
  }

  lemma FirstName(b: seq<byte>, at: nat, rest: seq<nat>, recordIsDirectory: bool)
    requires AttributeAt(b, at) && forall o :: o in rest ==> AttributeAt(b, o)
    ensures NamesAt(b, [at] + rest, recordIsDirectory) ==
            OneOrNone(FileNameAt(b, at, recordIsDirectory)) + NamesAt(b, rest, recordIsDirectory)
  {
    assert ([at] + rest)[1..] == rest;
  }

  lemma DataStep(b: seq<byte>, at: nat, attributes: seq<DataAttribute>)
    requires AttributeAt(b, at)
    ensures attributes + DataFrom(b, at) == attributes + OneOrNone(DataAt(b, at)) + DataFrom(b, AttributeEnd(b, at))
  {
    FirstData(b, at, AttributesFrom(b, AttributeEnd(b, at)));
    Regroup(attributes, OneOrNone(DataAt(b, at)), DataFrom(b, AttributeEnd(b, at)));
  }

  lemma FirstData(b: seq<byte>, at: nat, rest: seq<nat>)
    requires AttributeAt(b, at) && forall o :: o in rest ==> AttributeAt(b, o)
    ensures DataAttributesAt(b, [at] + rest) == OneOrNone(DataAt(b, at)) + DataAttributesAt(b, rest)
  {
    assert ([at] + rest)[1..] == rest;
  }

  /** The loop of `Parse`. `visited` records the attribute offsets the walk stopped at. */
  method WalkNames(b: seq<byte>, first: nat, recordIsDirectory: bool)
    returns (names: seq<MftFileName>, ghost visited: seq<nat>)
    ensures visited == AttributesFrom(b, first)
    ensures names == NamesFrom(b, first, recordIsDirectory)
  {
    names, visited := [], [];
    var at := first;
    while at + 16 <= |b|
      invariant AttributesFrom(b, first) == visited + AttributesFrom(b, at)
      invariant NamesFrom(b, first, recordIsDirectory) == names + NamesFrom(b, at, recordIsDirectory)
      decreases |b| - at
    {
      var next := ReadHeader(b, at);
      if next.None? {
        break;
      }
      AttributesStep(b, at, visited);
      NamesStep(b, at, recordIsDirectory, names);
      var name := ReadFileName(b, at, recordIsDirectory);
      names := names + OneOrNone(name);
      visited := visited + [at];
      at := next.value;
    }
  }

  method Parse(input: seq<byte>, offset: nat) returns (result: Option<MftRecord>)
    ensures result == ParsedRecord(input, offset)
  {
    var restored := RestoreRecord(input);
    if restored.None? {
      return None;
    }
    var bytes := restored.value;
    var flags := ReadU16(bytes, 0x16);
    var firstAttribute := ReadU16(bytes, 0x14);
    var recordNumber := ReadU32(bytes, 0x2C);
    assert Pow2(1) == 2;
    var recordIsDirectory := TestBit(flags.value, 1);
    var names, visited := WalkNames(bytes, firstAttribute.value, recordIsDirectory);
    if names == [] {
      return None;
    }
    var recordIdGuess := if recordNumber.value != 0 then recordNumber.value else offset / RECORD_SIZE;
    return Some(MftRecord(recordIdGuess, offset, names));
  }

  method RecordNumber(input: seq<byte>) returns (result: Option<nat>)
    ensures result == RecordNumberOf(input)
  {
    var bytes := RestoreRecord(input);
    if bytes.None? {
      return None;
    }
    result := ReadU32(bytes.value, 0x2C);
  }

  method ReadResident(b: seq<byte>, at: nat) returns (r: Option<DataAttribute>)
    requires AttributeAt(b, at)
    ensures r == ResidentAt(b, at)
  {
    var contentLen := ReadU32(b, at + 16);
    var contentOffset := ReadU16(b, at + 20);
    if contentLen.None? || contentOffset.None? {
      return None;
    }
    var attrEnd := AttributeEnd(b, at);
    var contentStart := at + contentOffset.value;
    if contentStart > attrEnd || contentLen.value > attrEnd - contentStart {
      return None;
    }
    return Some(DataAttribute(true, b[contentStart..contentStart + contentLen.value], [], contentLen.value));
  }

  method ReadNonResident(b: seq<byte>, at: nat) returns (r: Option<DataAttribute>)
    requires AttributeAt(b, at)
    ensures r == NonResidentAt(b, at)
  {
    var runOffset := ReadU16(b, at + 32);
    var realSize := ReadU64(b, at + 48);
    if runOffset.None? || realSize.None? {
      return None;
    }
    var attrEnd := AttributeEnd(b, at);
    var runStart := at + runOffset.value;
    if runStart >= attrEnd {
      return None;
    }
    var runs := ParseDataRuns(b, runStart, attrEnd);
    if runs.None? {
      return None;
    }
    return Some(DataAttribute(false, [], runs.value, realSize.value));
  }

  /** The loop of `DataAttributes`. */
  method WalkData(b: seq<byte>, first: nat) returns (attributes: seq<DataAttribute>, ghost visited: seq<nat>)
    ensures visited == AttributesFrom(b, first)
    ensures attributes == DataFrom(b, first)
  {
    attributes, visited := [], [];
    var at := first;
    while at + 16 <= |b|
      invariant AttributesFrom(b, first) == visited + AttributesFrom(b, at)
      invariant DataFrom(b, first) == attributes + DataFrom(b, at)
      decreases |b| - at
    {
      var next := ReadHeader(b, at);
      if next.None? {
        break;
      }
      AttributesStep(b, at, visited);
      DataStep(b, at, attributes);
      var data := ReadData(b, at);
      attributes := attributes + OneOrNone(data);
      visited := visited + [at];
      at := next.value;
    }
  }

  method ReadData(b: seq<byte>, at: nat) returns (r: Option<DataAttribute>)
    requires AttributeAt(b, at)
    ensures r == DataAt(b, at)
  {
    var attrType := ReadU32(b, at);
    var attrFlags := ReadU16(b, at + 12);
    var nonResident, nameLen := b[at + 8], b[at + 9];
    var plain := HasPlainFlags(attrFlags.value);
    r := None;
    if attrType.value == ATTRIBUTE_DATA && nameLen == 0 && plain {
      if nonResident == 0 {
        r := ReadResident(b, at);
      } else if nonResident == 1 {
        r := ReadNonResident(b, at);
      }
    }
  }

  method DataAttributes(input: seq<byte>) returns (attributes: seq<DataAttribute>)
    ensures attributes == DataAttributesOf(input)
  {
    var restored := RestoreRecord(input);
    if restored.None? {
      return [];
    }
    var firstAttribute := ReadU16(restored.value, 0x14);
    ghost var visited;
    attributes, visited := WalkData(restored.value, firstAttribute.value);
  }

  //
  // Bounds
  //

  /** Main result: every attribute the walks visit lies inside the record, in order, none overlapping the next. */
  lemma {:induction false} AttributesAreInOrder(b: seq<byte>, at: nat, i: nat)
    requires i < |AttributesFrom(b, at)|
    ensures var offsets := AttributesFrom(b, at);
            && at <= offsets[i] && AttributeEnd(b, offsets[i]) <= |b|
            && (i + 1 < |offsets| ==> offsets[i + 1] == AttributeEnd(b, offsets[i]))
    decreases |b| - at
  {
    if i > 0 {
      AttributesAreInOrder(b, AttributeEnd(b, at), i - 1);
    } else if |AttributesFrom(b, at)| > 1 {
      assert AttributesFrom(b, at)[1] == AttributesFrom(b, AttributeEnd(b, at))[0];
    }
  }

  /** The data attribute was read inside the attribute at `at`: a payload is a slice of it, as long as its size says,
      and a run list is the same in every record that agrees with this one inside the attribute. */
  ghost predicate LiesInside(b: seq<byte>, at: nat, data: DataAttribute)
    requires AttributeAt(b, at)
  {
    var end := AttributeEnd(b, at);
    if data.resident then
      && at + 22 <= |b|
      && var start := at + Word16(b, at + 20);
         start + data.realSize <= end && data.residentData == b[start..start + data.realSize]
    else
      && at + 56 <= |b|
      && var start := at + Word16(b, at + 32);
         && start < end
         && forall other: seq<byte> :: |other| == |b| && other[at..end] == b[at..end] ==>
                                         ParsedRuns(other, start, end, 0) == Some(data.runs)
  }

  lemma RunListLiesInside(b: seq<byte>, at: nat, other: seq<byte>)
    requires AttributeAt(b, at) && DataAt(b, at).Some? && !DataAt(b, at).value.resident
    requires |other| == |b| && other[at..AttributeEnd(b, at)] == b[at..AttributeEnd(b, at)]
    ensures at + 56 <= |b|
    ensures var start := at + Word16(b, at + 32);
            && start < AttributeEnd(b, at)
            && ParsedRuns(other, start, AttributeEnd(b, at), 0) == Some(DataAt(b, at).value.runs)
  {
    var start, end := at + Word16(b, at + 32), AttributeEnd(b, at);
    TerminatorIsInside(b, start, end, 0);
    forall k | at <= k < end
      ensures other[k] == b[k]
    {
      assert other[k] == other[at..end][k - at] == b[at..end][k - at];
    }
    BytesAfterTerminator(b, start, end, 0, other, end);
  }

  lemma DataAtLiesInside(b: seq<byte>, at: nat)
    requires AttributeAt(b, at) && DataAt(b, at).Some?
    ensures LiesInside(b, at, DataAt(b, at).value)
  {
    var data := DataAt(b, at).value;
    if !data.resident {
      RunListLiesInside(b, at, b);
      var end := AttributeEnd(b, at);
      forall other: seq<byte> | |other| == |b| && other[at..end] == b[at..end]
        ensures ParsedRuns(other, at + Word16(b, at + 32), end, 0) == Some(data.runs)
      {
        RunListLiesInside(b, at, other);
      }
    }
  }

  lemma {:induction false} DataOffset(b: seq<byte>, offsets: seq<nat>, e: nat) returns (k: nat)
    requires (forall o :: o in offsets ==> AttributeAt(b, o)) && e < |DataAttributesAt(b, offsets)|
    ensures k < |offsets| && DataAt(b, offsets[k]) == Some(DataAttributesAt(b, offsets)[e])
  {
    var first := OneOrNone(DataAt(b, offsets[0]));
    if e < |first| {
      k := 0;
    } else {
      var rest := DataOffset(b, offsets[1..], e - |first|);
      k := rest + 1;
    }
  }

  /** Main result: every data attribute that is returned comes from an attribute that the walk visits, and was read
      inside that attribute. */
  lemma ReturnedDataLiesInside(input: seq<byte>, e: nat) returns (at: nat)
    requires e < |DataAttributesOf(input)|
    ensures RestoredRecord(input).Some?
    ensures var b := RestoredRecord(input).value;
            && at in AttributesFrom(b, FirstAttribute(b))
            && DataAt(b, at) == Some(DataAttributesOf(input)[e])
            && LiesInside(b, at, DataAttributesOf(input)[e])
  {
    var b := RestoredRecord(input).value;
    var offsets := AttributesFrom(b, FirstAttribute(b));
    var k := DataOffset(b, offsets, e);
    at := offsets[k];
    DataAtLiesInside(b, at);
  }

  /** What holds of everything `DataAttributesOf` returns. */
  predicate WholeAttribute(data: DataAttribute) {
    && (data.resident ==> |data.residentData| == data.realSize)
    && (forall r :: r in data.runs ==> ValidRun(r))
  }

  lemma DataAtIsWhole(b: seq<byte>, at: nat)
    requires AttributeAt(b, at) && DataAt(b, at).Some?
    ensures WholeAttribute(DataAt(b, at).value)
  {
    if !DataAt(b, at).value.resident {
      AcceptedRunsAreValid(b, at + Word16(b, at + 32), AttributeEnd(b, at), 0);
    }
  }

  lemma {:induction false} DataAttributesAreWhole(b: seq<byte>, offsets: seq<nat>)
    requires forall o :: o in offsets ==> AttributeAt(b, o)
    ensures forall d :: d in DataAttributesAt(b, offsets) ==> WholeAttribute(d)
  {
    if offsets != [] {
      DataAttributesAreWhole(b, offsets[1..]);
      if DataAt(b, offsets[0]).Some? { DataAtIsWhole(b, offsets[0]); }
    }
  }
}
