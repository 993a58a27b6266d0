/** Which bytes a parsed name comes from. The walk keeps them inside the record, but not inside their own attribute. */
module NameBytes {
  import opened Options
  import opened Sequences
  import opened LittleEndian
  import opened MachineInts
  import opened UpdateSequence
  import opened Utf
  import opened MftRecord
  import opened RecordFormat
  import opened RecordRoundTrip

  /** Where the text of a name whose content starts at `start` ends. */
  function TextEnd(b: seq<byte>, start: nat): nat
    requires start + 66 <= |b|
  {
    var length: nat := b[start + 64];
    start + 66 + 2 * length
  }

  //
  // Inside the record
  //

  /** Where a name is found: in the first attribute, or among those of the others. */
  lemma NameStep(b: seq<byte>, offsets: seq<nat>, isDirectory: bool, e: nat) returns (here: bool, next: nat)
    requires (forall o :: o in offsets ==> AttributeAt(b, o)) && e < |NamesAt(b, offsets, isDirectory)|
    ensures offsets != []
    ensures here ==> FileNameAt(b, offsets[0], isDirectory) == Some(NamesAt(b, offsets, isDirectory)[e])
    ensures !here ==> next < |NamesAt(b, offsets[1..], isDirectory)|
                      && NamesAt(b, offsets[1..], isDirectory)[next] == NamesAt(b, offsets, isDirectory)[e]
  {
    var first := FileNameAt(b, offsets[0], isDirectory);
    here := first.Some? && e == 0;
    next := if first.Some? && e > 0 then e - 1 else e;
  }

  lemma {:induction false} NameOffset(b: seq<byte>, offsets: seq<nat>, isDirectory: bool, e: nat) returns (k: nat)
    requires (forall o :: o in offsets ==> AttributeAt(b, o)) && e < |NamesAt(b, offsets, isDirectory)|
    ensures k < |offsets| && FileNameAt(b, offsets[k], isDirectory) == Some(NamesAt(b, offsets, isDirectory)[e])
  {
    var here, next := NameStep(b, offsets, isDirectory, e);
    if here {
      k := 0;
    } else {
      var rest := NameOffset(b, offsets[1..], isDirectory, next);
      k := rest + 1;
      assert offsets[k] == offsets[1..][rest];
    }
  }

  /** Main result: every name that is returned comes from an attribute that the walk visits; its text is converted from
      bytes of its content, and those lie in the record. */
  lemma ReturnedNameLiesInRecord(input: seq<byte>, offset: nat, e: nat) returns (at: nat)
    requires ParsedRecord(input, offset).Some? && e < |ParsedRecord(input, offset).value.names|
    ensures RestoredRecord(input).Some?
    ensures var b, name := RestoredRecord(input).value, ParsedRecord(input, offset).value.names[e];
            && at in AttributesFrom(b, FirstAttribute(b)) && NameBounds(b, at).Some?
            && FileNameAt(b, at, Word16(b, 0x16) / 2 % 2 == 1) == Some(name)
            && var (start, end) := NameBounds(b, at).value;
               && at <= start && TextEnd(b, start) <= end <= RECORD_SIZE
               && name.name == Utf8Name(b[start + 66..TextEnd(b, start)])
  {
    var b := RestoredRecord(input).value;
    var offsets, isDirectory := AttributesFrom(b, FirstAttribute(b)), Word16(b, 0x16) / 2 % 2 == 1;
    var k := NameOffset(b, offsets, isDirectory, e);
    at := offsets[k];
    NameHasText(b, at, isDirectory);
  }

  //
  // Inside the attribute
  //

  /** The records have the same bytes in the attribute at `at`. */
  ghost predicate SameAttribute(b: seq<byte>, other: seq<byte>, at: nat)
    requires AttributeAt(b, at)
  {
    |other| == |b| && other[at..AttributeEnd(b, at)] == b[at..AttributeEnd(b, at)]
  }

  /** The name depends on the bytes of its own attribute only. */
  ghost predicate NameIsOwn(b: seq<byte>, at: nat, isDirectory: bool)
    requires AttributeAt(b, at)
  {
    forall other: seq<byte> :: SameAttribute(b, other, at) ==>
      AttributeAt(other, at) && FileNameAt(other, at, isDirectory) == FileNameAt(b, at, isDirectory)
  }

  lemma SameBytes(b: seq<byte>, other: seq<byte>, at: nat, end: nat)
    requires at <= end <= |b| == |other| && other[at..end] == b[at..end]
    ensures forall k :: at <= k < end ==> other[k] == b[k]
  {
    forall k | at <= k < end
      ensures other[k] == b[k]
    {
      assert other[k] == other[at..end][k - at] == b[at..end][k - at];
    }
  }

  /** The fields that locate the content are equal. */
  lemma SameHeader(b: seq<byte>, other: seq<byte>, at: nat)
    requires AttributeAt(b, at) && at + 22 <= |b| == |other|
    requires forall k :: at <= k < at + 22 ==> other[k] == b[k]
    ensures AttributeAt(other, at) && AttributeEnd(other, at) == AttributeEnd(b, at)
    ensures NameBounds(other, at) == NameBounds(b, at)
  {
  }

  lemma SameContent(b: seq<byte>, other: seq<byte>, start: nat, end: nat, isDirectory: bool)
    requires start + 66 <= |b| == |other| && end <= |b| && TextEnd(b, start) <= end
    requires forall k :: start <= k < TextEnd(b, start) ==> other[k] == b[k]
    ensures FileNameContent(other, start, end, isDirectory) == FileNameContent(b, start, end, isDirectory)
  {
    var length: nat := b[start + 64];
    assert other[start + 66..start + 66 + 2 * length] == b[start + 66..start + 66 + 2 * length];
  }

  lemma OwnBytesSuffice(b: seq<byte>, at: nat, isDirectory: bool, other: seq<byte>)
    requires AttributeAt(b, at) && FileNameAt(b, at, isDirectory).Some?
    requires TextEnd(b, NameBounds(b, at).value.0) <= AttributeEnd(b, at)
    requires SameAttribute(b, other, at)
    ensures AttributeAt(other, at) && FileNameAt(other, at, isDirectory) == FileNameAt(b, at, isDirectory)
  {
    var (start, end) := NameBounds(b, at).value;
    NameHasText(b, at, isDirectory);
    SameBytes(b, other, at, AttributeEnd(b, at));
    SameHeader(b, other, at);
    SameContent(b, other, start, end, isDirectory);
  }

  lemma {:induction false} LastScalar(units: seq<codeUnit>, k: nat)
    requires k < |units|
    requires var last := units[|units| - 1]; !IsHigh(last) && !IsLow(last) && last != 0
    ensures var cps := DropZeros(ScalarsFrom(units, k)); cps != [] && cps[|cps| - 1] == units[|units| - 1]
    decreases |units| - k
  {
    var next := NextUnit(units, k);
    var rest := ScalarsFrom(units, next);
    assert ScalarsFrom(units, k)[1..] == rest;
    if next < |units| {
      LastScalar(units, next);
    } else {
      assert ScalarsFrom(units, k) == [units[k]];
    }
  }

  /** A text whose last unit is neither NUL nor a surrogate ends in that code point. */
  lemma LastUnitShows(data: seq<byte>, high: byte) returns (cps: seq<scalar>)
    requires 0 < |data| && |data| % 2 == 0 && data[|data| - 1] == high && 0 < high < 0xD8
    ensures Utf8Decode(Utf8Name(data)) == Some(cps) && cps != []
    ensures var low: nat := data[|data| - 2]; cps[|cps| - 1] == low + 256 * high
  {
    var n := |data| / 2;
    var units := Units(data);
    assert units[n - 1] == UnitAt(data, n - 1);
    LastScalar(units, 0);
    ConversionKeepsMeaning(data);
    cps := DropZeros(ScalarsFrom(units, 0));
  }

  lemma NameHasText(b: seq<byte>, at: nat, isDirectory: bool)
    requires AttributeAt(b, at) && FileNameAt(b, at, isDirectory).Some?
    ensures var (start, end) := NameBounds(b, at).value;
            && at <= start && start + 66 < TextEnd(b, start) <= end
            && FileNameAt(b, at, isDirectory).value.name == Utf8Name(b[start + 66..TextEnd(b, start)])
  {
  }

  /** Changing the last byte of a name, outside the attribute, changes nothing but the text. */
  lemma OtherLastByte(b: seq<byte>, at: nat, start: nat, end: nat, last: byte, other: seq<byte>)
    requires AttributeAt(b, at) && at <= start && start + 68 <= end <= |b| && AttributeEnd(b, at) < end
    requires other == b[end - 1 := last]
    ensures SameAttribute(b, other, at) && AttributeAt(other, at) && NameBounds(other, at) == NameBounds(b, at)
    ensures TextEnd(other, start) == TextEnd(b, start)
  {
    SameHeader(b, other, at);
  }

  /** Main result: a name depends on the bytes of its own attribute only if and only if its text ends there. */
  lemma NameIsOwnIff(b: seq<byte>, at: nat, isDirectory: bool)
    requires AttributeAt(b, at) && FileNameAt(b, at, isDirectory).Some?
    ensures NameIsOwn(b, at, isDirectory) <==> TextEnd(b, NameBounds(b, at).value.0) <= AttributeEnd(b, at)
    ensures NameBounds(b, at).value.1 <= AttributeEnd(b, at) ==> NameIsOwn(b, at, isDirectory)
  {
    var start := NameBounds(b, at).value.0;
    NameHasText(b, at, isDirectory);
    if TextEnd(b, start) <= AttributeEnd(b, at) {
      forall other: seq<byte> | SameAttribute(b, other, at)
        ensures AttributeAt(other, at) && FileNameAt(other, at, isDirectory) == FileNameAt(b, at, isDirectory)
      {
        OwnBytesSuffice(b, at, isDirectory, other);
      }
    } else if NameIsOwn(b, at, isDirectory) {
      TwoTexts(b, at, isDirectory, start, TextEnd(b, start));
    }
  }

  /** Two records agree on the attribute, and the names in it differ. */
  lemma TwoTexts(b: seq<byte>, at: nat, isDirectory: bool, start: nat, end: nat)
    requires AttributeAt(b, at) && FileNameAt(b, at, isDirectory).Some? && start == NameBounds(b, at).value.0
    requires at <= start && start + 68 <= end <= |b| && end == TextEnd(b, start) && AttributeEnd(b, at) < end
    ensures !NameIsOwn(b, at, isDirectory)
  {
    if NameIsOwn(b, at, isDirectory) {
      OwnAfterChange(b, at, isDirectory, start, end, 1);
      OwnAfterChange(b, at, isDirectory, start, end, 2);
      TextsDiffer(b, start, end);
    }
  }

  lemma TextsDiffer(b: seq<byte>, start: nat, end: nat)
    requires start + 68 <= end <= |b| && end == TextEnd(b, start)
    ensures Utf8Name(b[end - 1 := 1][start + 66..end]) != Utf8Name(b[end - 1 := 2][start + 66..end])
  {
    ChangedTextsDiffer(b, start + 66, end, b[start + 64]);
  }

  lemma ChangedTextsDiffer(b: seq<byte>, start: nat, end: nat, length: nat)
    requires start < end <= |b| && end == start + 2 * length
    ensures Utf8Name(b[end - 1 := 1][start..end]) != Utf8Name(b[end - 1 := 2][start..end])
  {
    var first := ChangedText(b, start, end, length, 1);
    var second := ChangedText(b, start, end, length, 2);
    assert first[|first| - 1] != second[|second| - 1];
  }

  /** What the changed text denotes ends in the changed code unit. */
  lemma ChangedText(b: seq<byte>, start: nat, end: nat, length: nat, last: byte) returns (cps: seq<scalar>)
    requires start < end <= |b| && end == start + 2 * length && 0 < last < 0xD8
    ensures Utf8Decode(Utf8Name(b[end - 1 := last][start..end])) == Some(cps) && cps != []
    ensures var low: nat := b[end - 2]; cps[|cps| - 1] == low + 256 * last
  {
    ChangedSlice(b, start, end, last);
    cps := LastUnitShows(b[end - 1 := last][start..end], last);
  }

  lemma ChangedSlice(b: seq<byte>, start: nat, end: nat, last: byte)
    requires start + 2 <= end <= |b|
    ensures var s := b[end - 1 := last][start..end];
            |s| == end - start && s[|s| - 1] == last && s[|s| - 2] == b[end - 2]
  {
  }

  /** If the name depended on its own bytes only, it would be converted from the changed bytes, too. */
  lemma OwnAfterChange(b: seq<byte>, at: nat, isDirectory: bool, start: nat, end: nat, last: byte)
    requires AttributeAt(b, at) && FileNameAt(b, at, isDirectory).Some? && start == NameBounds(b, at).value.0
    requires at <= start && start + 68 <= end <= |b| && end == TextEnd(b, start) && AttributeEnd(b, at) < end
    requires NameIsOwn(b, at, isDirectory)
    ensures FileNameAt(b, at, isDirectory).value.name == Utf8Name(b[end - 1 := last][start + 66..end])
  {
    var other := b[end - 1 := last];
    OtherLastByte(b, at, start, end, last, other);
    NameOfText(other, at, isDirectory, start, end);
  }

  lemma NameOfText(b: seq<byte>, at: nat, isDirectory: bool, start: nat, end: nat)
    requires AttributeAt(b, at) && FileNameAt(b, at, isDirectory).Some? && start == NameBounds(b, at).value.0
    requires end == TextEnd(b, start)
    ensures start + 66 < end <= |b| && FileNameAt(b, at, isDirectory).value.name == Utf8Name(b[start + 66..end])
  {
    NameHasText(b, at, isDirectory);
  }

  //
  // A record whose name lies outside its attribute
  //

  /** A name attribute that claims to end before its content. */
  function ShortAttribute(units: seq<codeUnit>, parentRef: uint64, nameNamespace: byte): (s: seq<byte>)
    requires |units| <= 255
  {
    SizedHeader(ATTRIBUTE_FILE_NAME, 16, 66 + 2 * |units|) + NameContent(units, parentRef, nameNamespace)
  }

  function ShortRecord(number: nat, flags: nat, units: seq<codeUnit>, parentRef: uint64, nameNamespace: byte)
    : (s: seq<byte>)
    requires |units| <= 255
    ensures |s| == RECORD_SIZE
  {
    Assembled(Header(number, flags, 0), ShortAttribute(units, parentRef, nameNamespace))
  }

  lemma ShortAttributeReads(b: seq<byte>, at: nat, a: Appended, isDirectory: bool)
    requires a.FileName? && Appendable(a) && |b| == RECORD_SIZE
    requires StandsAt(b, at, ShortAttribute(a.units, a.parentRef, a.nameNamespace))
    ensures AttributeAt(b, at) && AttributeEnd(b, at) == at + 16
    ensures NameBounds(b, at) == Some((at + RESIDENT_HEADER, at + RESIDENT_HEADER + 66 + 2 * |a.units|))
    ensures FileNameAt(b, at, isDirectory) == NameOf(a, isDirectory)
    ensures TextEnd(b, at + RESIDENT_HEADER) == at + RESIDENT_HEADER + 66 + 2 * |a.units|
  {
    var start, length := at + RESIDENT_HEADER, 66 + 2 * |a.units|;
    ShortHeaderReads(b, at, length, NameContent(a.units, a.parentRef, a.nameNamespace));
    BoundedNameReads(b, at, start, a, isDirectory);
    ContentLength(b, start, a);
  }

  lemma BoundedNameReads(b: seq<byte>, at: nat, start: nat, a: Appended, isDirectory: bool)
    requires a.FileName? && Appendable(a) && AttributeAt(b, at)
    requires NameBounds(b, at) == Some((start, start + 66 + 2 * |a.units|))
    requires StandsAt(b, start, NameContent(a.units, a.parentRef, a.nameNamespace))
    ensures FileNameAt(b, at, isDirectory) == NameOf(a, isDirectory)
  {
    NameContentReads(b, start, a, isDirectory);
  }

  lemma ShortHeaderReads(b: seq<byte>, at: nat, length: nat, content: seq<byte>)
    requires |b| == RECORD_SIZE && 66 <= length == |content|
    requires StandsAt(b, at, SizedHeader(ATTRIBUTE_FILE_NAME, 16, length) + content)
    ensures AttributeAt(b, at) && AttributeEnd(b, at) == at + 16
    ensures NameBounds(b, at) == Some((at + RESIDENT_HEADER, at + RESIDENT_HEADER + length))
    ensures StandsAt(b, at + RESIDENT_HEADER, content)
    ensures Word32(b, at + 16) == length && Word16(b, at + 20) == RESIDENT_HEADER && Word16(b, at + 22) == 0
  {
    StandsAtParts(b, at, SizedHeader(ATTRIBUTE_FILE_NAME, 16, length), content);
    SizedHeaderFields(b, at, ATTRIBUTE_FILE_NAME, 16, length);
  }

  lemma ContentLength(b: seq<byte>, start: nat, a: Appended)
    requires a.FileName? && Appendable(a)
    requires StandsAt(b, start, NameContent(a.units, a.parentRef, a.nameNamespace))
    ensures TextEnd(b, start) == start + 66 + 2 * |a.units|
  {
    StandsAtParts(b, start, NameHeader(a.parentRef, |a.units|, a.nameNamespace), Utf16le(a.units));
    NameHeaderFields(b, start, a.parentRef, |a.units|, a.nameNamespace);
  }

  /** The walk finds the name, then takes the header's second half for an attribute, and stops inside the content. */
  lemma ShortWalk(b: seq<byte>, at: nat, a: Appended, isDirectory: bool)
    requires a.FileName? && Appendable(a) && |b| == RECORD_SIZE
    requires StandsAt(b, at, ShortAttribute(a.units, a.parentRef, a.nameNamespace))
    ensures NamesFrom(b, at, isDirectory) == OneOrNone(NameOf(a, isDirectory))
  {
    var length := 66 + 2 * |a.units|;
    ShortAttributeReads(b, at, a, isDirectory);
    ShortHeaderReads(b, at, length, NameContent(a.units, a.parentRef, a.nameNamespace));
    SecondHalf(b, at + 16, length, isDirectory);
    ContentStopsWalk(b, at + RESIDENT_HEADER, a);
    FirstName(b, at, AttributesFrom(b, at + 16), isDirectory);
    FirstName(b, at + 16, AttributesFrom(b, at + 40), isDirectory);
    assert AttributesFrom(b, at + 40) == [];
    assert NamesAt(b, [], isDirectory) == [];
  }

  lemma SecondHalf(b: seq<byte>, at: nat, length: nat, isDirectory: bool)
    requires at + 24 <= |b| && Word32(b, at) == length && 66 <= length <= RECORD_SIZE
    requires Word16(b, at + 4) == RESIDENT_HEADER && Word16(b, at + 6) == 0
    ensures AttributeAt(b, at) && AttributeEnd(b, at) == at + 24 && FileNameAt(b, at, isDirectory) == None
  {
  }

  lemma ContentStopsWalk(b: seq<byte>, start: nat, a: Appended)
    requires a.FileName? && Appendable(a) && StandsAt(b, start, NameContent(a.units, a.parentRef, a.nameNamespace))
    ensures !AttributeAt(b, start + 16)
  {
    var h2 := Digits(a.parentRef, 8) + Zeros(32);
    var h3 := h2 + Digits(4096, 8);
    var h4 := h3 + Digits(1234, 8);
    StandsAtParts(b, start, NameHeader(a.parentRef, |a.units|, a.nameNamespace), Utf16le(a.units));
    StandsAtParts(b, start, h4 + Zeros(8), [|a.units|, a.nameNamespace]);
    StandsAtParts(b, start, h4, Zeros(8));
    StandsAtParts(b, start, h3, Digits(1234, 8));
    StandsAtParts(b, start, h2, Digits(4096, 8));
    StandsAtParts(b, start, Digits(a.parentRef, 8), Zeros(32));
    ZeroWord16(b, start + 8, 32, 12);
    ZeroWord16(b, start + 8, 32, 14);
  }

  /** Main result: a returned name can lie outside its attribute. For every name with text there is a record from which
      it is parsed, although it does not depend on the bytes of its own attribute only. */
  lemma NameCanLieOutside(number: nat, flags: nat, a: Appended, offset: nat) returns (input: seq<byte>)
    requires number <= ATTRIBUTE_END && flags <= 0xFFFF && a.FileName? && Appendable(a)
    requires NameOf(a, flags / 2 % 2 == 1).Some?
    ensures ParsedRecord(input, offset).Some?
    ensures ParsedRecord(input, offset).value.names == [NameOf(a, flags / 2 % 2 == 1).value]
    ensures var b := RestoredRecord(input).value;
            && AttributesFrom(b, FirstAttribute(b)) != []
            && FileNameAt(b, FirstAttribute(b), flags / 2 % 2 == 1) == NameOf(a, flags / 2 % 2 == 1)
            && !NameIsOwn(b, FirstAttribute(b), flags / 2 % 2 == 1)
  {
    var isDirectory := flags / 2 % 2 == 1;
    var short := ShortRecord(number, flags, a.units, a.parentRef, a.nameNamespace);
    input := Applied(short, USA_OFFSET, SEQUENCE_LOW, SEQUENCE_HIGH, 2);
    ShortRecordReads(number, flags, a);
    var b := RestoredRecord(input).value;
    ShortAttributeReads(b, FIRST_ATTRIBUTE_OFFSET, a, isDirectory);
    ShortWalk(b, FIRST_ATTRIBUTE_OFFSET, a, isDirectory);
    NameIsOwnIff(b, FIRST_ATTRIBUTE_OFFSET, isDirectory);
  }

  lemma ShortRecordReads(number: nat, flags: nat, a: Appended)
    requires number <= ATTRIBUTE_END && flags <= 0xFFFF && a.FileName? && Appendable(a)
    ensures var short := ShortRecord(number, flags, a.units, a.parentRef, a.nameNamespace);
            var r := RestoredRecord(Applied(short, USA_OFFSET, SEQUENCE_LOW, SEQUENCE_HIGH, 2));
            r.Some? && ReadsAs(r.value, number, flags, ShortAttribute(a.units, a.parentRef, a.nameNamespace))
  {
    var header, layout := Header(number, flags, 0), ShortAttribute(a.units, a.parentRef, a.nameNamespace);
    var short := ShortRecord(number, flags, a.units, a.parentRef, a.nameNamespace);
    AssembledParts(header, layout);
    StandsAtParts(short, FIRST_ATTRIBUTE_OFFSET, layout, Digits(ATTRIBUTE_END, 4));
    HeaderFields(short, number, flags, 0);
    HeaderIsFixable(short, number, flags, 0);
    StampedRestores(short);
    ReadsAsOutsideArray(RestoredRecord(Applied(short, USA_OFFSET, SEQUENCE_LOW, SEQUENCE_HIGH, 2)).value, short, number,
                        flags, layout);
  }
}
