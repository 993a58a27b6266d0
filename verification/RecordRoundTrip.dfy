/** Reading back what the record builder wrote. */
module RecordRoundTrip {
  import opened Options
  import opened Sequences
  import opened LittleEndian
  import opened MachineInts
  import opened DataRuns
  import opened Utf
  import opened MftRecord
  import opened RecordFormat
  import opened UpdateSequence

  lemma ZeroBytes(b: seq<byte>, at: nat, n: nat, i: nat)
    requires StandsAt(b, at, Zeros(n)) && i < n
    ensures b[at + i] == 0
  {
    assert b[at + i] == b[at..at + n][i] == Zeros(n)[i];
  }

  lemma ZeroWord16(b: seq<byte>, at: nat, n: nat, i: nat)
    requires StandsAt(b, at, Zeros(n)) && i + 2 <= n
    ensures Word16(b, at + i) == 0
  {
    ZeroBytes(b, at, n, i);
    ZeroBytes(b, at, n, i + 1);
  }

  lemma ResidentHeaderFields(b: seq<byte>, at: nat, kind: nat, length: nat)
    requires StandsAt(b, at, ResidentHeader(kind, length))
    requires kind <= ATTRIBUTE_END && length <= RECORD_SIZE
    ensures Word32(b, at) == kind && Word32(b, at + 4) == Align8(RESIDENT_HEADER + length)
    ensures b[at + 8] == 0 && b[at + 9] == 0 && Word16(b, at + 12) == 0
    ensures Word32(b, at + 16) == length && Word16(b, at + 20) == RESIDENT_HEADER
  {
    SizedHeaderFields(b, at, kind, Align8(RESIDENT_HEADER + length), length);
  }

  lemma SizedHeaderFields(b: seq<byte>, at: nat, kind: nat, size: nat, length: nat)
    requires StandsAt(b, at, SizedHeader(kind, size, length))
    requires kind <= ATTRIBUTE_END && size <= ATTRIBUTE_END && length <= RECORD_SIZE
    ensures Word32(b, at) == kind && Word32(b, at + 4) == size
    ensures b[at + 8] == 0 && b[at + 9] == 0 && Word16(b, at + 12) == 0
    ensures Word32(b, at + 16) == length && Word16(b, at + 20) == RESIDENT_HEADER
    ensures Word16(b, at + 22) == 0
  {
    var h1 := Digits(kind, 4);
    var h2 := h1 + Digits(size, 4);
    var h3 := h2 + Zeros(8);
    var h4 := h3 + Digits(length, 4);
    var h5 := h4 + Digits(RESIDENT_HEADER, 2);
    StandsAtParts(b, at, h5, Zeros(2));
    StandsAtParts(b, at, h4, Digits(RESIDENT_HEADER, 2));
    StandsAtParts(b, at, h3, Digits(length, 4));
    StandsAtParts(b, at, h2, Zeros(8));
    StandsAtParts(b, at, h1, Digits(size, 4));
    Word32OfDigits(b, at, kind);
    Word32OfDigits(b, at + 4, size);
    ZeroBytes(b, at + 8, 8, 0);
    ZeroBytes(b, at + 8, 8, 1);
    ZeroWord16(b, at + 8, 8, 4);
    Word32OfDigits(b, at + 16, length);
    Word16OfDigits(b, at + 20, RESIDENT_HEADER);
    ZeroWord16(b, at + 22, 2, 0);
  }

  lemma NonResidentHeaderFields(b: seq<byte>, at: nat, length: nat, realSize: uint64)
    requires StandsAt(b, at, NonResidentHeader(length, realSize)) && length <= RECORD_SIZE
    ensures Word32(b, at) == ATTRIBUTE_DATA && Word32(b, at + 4) == Align8(NON_RESIDENT_HEADER + length)
    ensures b[at + 8] == 1 && b[at + 9] == 0 && Word16(b, at + 12) == 0
    ensures Word16(b, at + 32) == NON_RESIDENT_HEADER && Word64(b, at + 48) == realSize
  {
    var size := Align8(NON_RESIDENT_HEADER + length);
    var h1 := Digits(ATTRIBUTE_DATA, 4);
    var h2 := h1 + Digits(size, 4);
    var h3 := h2 + [1];
    var h4 := h3 + Zeros(23);
    var h5 := h4 + Digits(NON_RESIDENT_HEADER, 2);
    var h6 := h5 + Zeros(14);
    var h7 := h6 + Digits(realSize, 8);
    StandsAtParts(b, at, h7, Zeros(8));
    StandsAtParts(b, at, h6, Digits(realSize, 8));
    StandsAtParts(b, at, h5, Zeros(14));
    StandsAtParts(b, at, h4, Digits(NON_RESIDENT_HEADER, 2));
    StandsAtParts(b, at, h3, Zeros(23));
    StandsAtParts(b, at, h2, [1]);
    StandsAtParts(b, at, h1, Digits(size, 4));
    Word32OfDigits(b, at, ATTRIBUTE_DATA);
    Word32OfDigits(b, at + 4, size);
    StandsAtHead(b, at + 8, [1]);
    ZeroBytes(b, at + 9, 23, 0);
    ZeroWord16(b, at + 9, 23, 3);
    Word16OfDigits(b, at + 32, NON_RESIDENT_HEADER);
    Word64OfDigits(b, at + 48, realSize);
  }

  lemma NameHeaderFields(b: seq<byte>, at: nat, parentRef: uint64, length: byte, nameNamespace: byte)
    requires StandsAt(b, at, NameHeader(parentRef, length, nameNamespace))
    ensures Word64(b, at) == parentRef && Word64(b, at + 40) == 4096 && Word64(b, at + 48) == 1234
    ensures Word32(b, at + 56) == 0 && b[at + 64] == length && b[at + 65] == nameNamespace
  {
    var h1 := Digits(parentRef, 8);
    var h2 := h1 + Zeros(32);
    var h3 := h2 + Digits(4096, 8);
    var h4 := h3 + Digits(1234, 8);
    var h5 := h4 + Zeros(8);
    StandsAtParts(b, at, h5, [length, nameNamespace]);
    StandsAtParts(b, at, h4, Zeros(8));
    StandsAtParts(b, at, h3, Digits(1234, 8));
    StandsAtParts(b, at, h2, Digits(4096, 8));
    StandsAtParts(b, at, h1, Zeros(32));
    Word64OfDigits(b, at, parentRef);
    Word64OfDigits(b, at + 40, 4096);
    Word64OfDigits(b, at + 48, 1234);
    ZeroWord16(b, at + 56, 8, 0);
    ZeroWord16(b, at + 56, 8, 2);
    assert b[at + 64..at + 66] == [length, nameNamespace];
    assert b[at + 64] == b[at + 64..at + 66][0] && b[at + 65] == b[at + 64..at + 66][1];
  }

  //
  // One attribute
  //

  /** The name a builder call leaves for the parser; none when the converted text is empty. */
  function NameOf(a: Appended, isDirectory: bool): Option<MftFileName> {
    if !a.FileName? then None
    else
      var text := Utf8Name(Utf16le(a.units));
      if text == [] then None
      else Some(MftFileName(a.parentRef % 0x1_0000_0000_0000, text, a.nameNamespace, 0, 4096, 1234, isDirectory))
  }

  lemma {:induction false} UnitsOfUtf16le(units: seq<codeUnit>)
    ensures Units(Utf16le(units)) == units
  {
    if units != [] {
      UnitsOfUtf16le(units[1..]);
      var data, rest := Utf16le(units), Utf16le(units[1..]);
      forall i | 0 <= i < |units|
        ensures Units(data)[i] == units[i]
      {
        if i > 0 {
          assert data[2 * i] == rest[2 * (i - 1)] && data[2 * i + 1] == rest[2 * (i - 1) + 1];
          assert Units(rest)[i - 1] == units[1..][i - 1];
        }
      }
    }
  }

  /** The data attribute a builder call leaves; none when a running sum of distances leaves 0..2^63-1. */
  function DataOf(a: Appended): Option<DataAttribute>
    requires Appendable(a)
  {
    match a
    case FileName(_, _, _) => None
    case ResidentData(content) => Some(DataAttribute(true, content, [], |content|))
    case NonResidentData(runs, realSize) =>
      var placed := Placed(runs, 0);
      if placed.Some? then Some(DataAttribute(false, [], placed.value, realSize)) else None
  }

  lemma ResidentParts(b: seq<byte>, at: nat, kind: nat, content: seq<byte>)
    requires |b| == RECORD_SIZE && StandsAt(b, at, ResidentAttribute(kind, content)) && kind < ATTRIBUTE_END
    ensures AttributeAt(b, at) && AttributeEnd(b, at) == at + |ResidentAttribute(kind, content)|
    ensures Word32(b, at) == kind && b[at + 8] == 0 && b[at + 9] == 0 && Word16(b, at + 12) == 0
    ensures Word32(b, at + 16) == |content| && Word16(b, at + 20) == RESIDENT_HEADER
    ensures StandsAt(b, at + RESIDENT_HEADER, content)
  {
    var padding := Align8(RESIDENT_HEADER + |content|) - RESIDENT_HEADER - |content|;
    StandsAtParts(b, at, ResidentHeader(kind, |content|) + content, Zeros(padding));
    StandsAtParts(b, at, ResidentHeader(kind, |content|), content);
    ResidentHeaderFields(b, at, kind, |content|);
  }

  lemma ResidentDataReads(b: seq<byte>, at: nat, content: seq<byte>)
    requires |content| <= UINT64_MAX
    requires |b| == RECORD_SIZE && StandsAt(b, at, ResidentAttribute(ATTRIBUTE_DATA, content))
    ensures AttributeAt(b, at) && AttributeEnd(b, at) == at + |ResidentAttribute(ATTRIBUTE_DATA, content)|
    ensures DataAt(b, at) == DataOf(ResidentData(content))
    ensures forall isDirectory :: FileNameAt(b, at, isDirectory) == None
  {
    ResidentParts(b, at, ATTRIBUTE_DATA, content);
    ResidentAtReads(b, at, content);
  }

  lemma ResidentAtReads(b: seq<byte>, at: nat, content: seq<byte>)
    requires |content| <= UINT64_MAX && AttributeAt(b, at) && Word32(b, at) == ATTRIBUTE_DATA
    requires b[at + 8] == 0 && b[at + 9] == 0 && Word16(b, at + 12) == 0 && at + 22 <= |b|
    requires Word32(b, at + 16) == |content| && Word16(b, at + 20) == RESIDENT_HEADER
    requires StandsAt(b, at + RESIDENT_HEADER, content)
    requires at + RESIDENT_HEADER + |content| <= AttributeEnd(b, at)
    ensures DataAt(b, at) == Some(DataAttribute(true, content, [], |content|))
    ensures forall isDirectory :: FileNameAt(b, at, isDirectory) == None
  {
  }

  lemma NonResidentParts(b: seq<byte>, at: nat, encoded: seq<byte>, realSize: uint64)
    requires |b| == RECORD_SIZE && StandsAt(b, at, NonResidentAttribute(encoded, realSize))
    ensures AttributeAt(b, at) && AttributeEnd(b, at) == at + |NonResidentAttribute(encoded, realSize)|
    ensures Word32(b, at) == ATTRIBUTE_DATA && b[at + 8] == 1 && b[at + 9] == 0 && Word16(b, at + 12) == 0
    ensures at + 56 <= |b| && Word16(b, at + 32) == NON_RESIDENT_HEADER && Word64(b, at + 48) == realSize
    ensures StandsAt(b, at + NON_RESIDENT_HEADER, encoded)
  {
    var padding := Align8(NON_RESIDENT_HEADER + |encoded|) - NON_RESIDENT_HEADER - |encoded|;
    StandsAtParts(b, at, NonResidentHeader(|encoded|, realSize) + encoded, Zeros(padding));
    StandsAtParts(b, at, NonResidentHeader(|encoded|, realSize), encoded);
    NonResidentHeaderFields(b, at, |encoded|, realSize);
  }

  lemma NonResidentAtReads(b: seq<byte>, at: nat, runs: Option<seq<DataRun>>, realSize: uint64)
    requires AttributeAt(b, at) && Word32(b, at) == ATTRIBUTE_DATA
    requires b[at + 8] == 1 && b[at + 9] == 0 && Word16(b, at + 12) == 0
    requires at + 56 <= |b| && Word16(b, at + 32) == NON_RESIDENT_HEADER && Word64(b, at + 48) == realSize
    requires at + NON_RESIDENT_HEADER < AttributeEnd(b, at)
    requires ParsedRuns(b, at + NON_RESIDENT_HEADER, AttributeEnd(b, at), 0) == runs
    ensures DataAt(b, at) == if runs.Some? then Some(DataAttribute(false, [], runs.value, realSize)) else None
  {
  }

  lemma NonResidentDataReads(b: seq<byte>, at: nat, runs: seq<RunSpec>, realSize: uint64)
    requires |b| == RECORD_SIZE && StandsAt(b, at, NonResidentAttribute(EncodedRuns(runs), realSize))
    ensures AttributeAt(b, at) && AttributeEnd(b, at) == at + |NonResidentAttribute(EncodedRuns(runs), realSize)|
    ensures DataAt(b, at) == DataOf(NonResidentData(runs, realSize))
  {
    NonResidentParts(b, at, EncodedRuns(runs), realSize);
    ParseEncoded(b, at + NON_RESIDENT_HEADER, AttributeEnd(b, at), runs, 0);
    NonResidentAtReads(b, at, Placed(runs, 0), realSize);
  }

  lemma DataIsNoName(b: seq<byte>, at: nat, isDirectory: bool)
    requires AttributeAt(b, at) && Word32(b, at) == ATTRIBUTE_DATA
    ensures FileNameAt(b, at, isDirectory) == None
  {
  }

  lemma NamedFieldsRead(b: seq<byte>, start: nat, a: Appended, name: seq<byte>, isDirectory: bool)
    requires a.FileName? && Appendable(a)
    requires StandsAt(b, start, NameHeader(a.parentRef, |a.units|, a.nameNamespace))
    ensures NamedFields(b, start, name, isDirectory) ==
            MftFileName(a.parentRef % 0x1_0000_0000_0000, name, a.nameNamespace, 0, 4096, 1234, isDirectory)
    ensures b[start + 64] == |a.units|
  {
    NameHeaderFields(b, start, a.parentRef, |a.units|, a.nameNamespace);
  }

  lemma NameTextRead(b: seq<byte>, start: nat, length: nat, raw: seq<byte>)
    requires start + 66 + 2 * length <= |b| && b[start + 64] == length
    requires StandsAt(b, start + 66, raw) && |raw| == 2 * length
    ensures NameText(b, start, start + 66 + 2 * length) == if Utf8Name(raw) == [] then None else Some(Utf8Name(raw))
  {
    assert b[start + 66..start + 66 + 2 * length] == raw;
  }

  lemma NameContentReads(b: seq<byte>, start: nat, a: Appended, isDirectory: bool)
    requires a.FileName? && Appendable(a)
    requires StandsAt(b, start, NameContent(a.units, a.parentRef, a.nameNamespace))
    ensures FileNameContent(b, start, start + 66 + 2 * |a.units|, isDirectory) == NameOf(a, isDirectory)
  {
    var raw := Utf16le(a.units);
    StandsAtParts(b, start, NameHeader(a.parentRef, |a.units|, a.nameNamespace), raw);
    NamedFieldsRead(b, start, a, Utf8Name(raw), isDirectory);
    NameTextRead(b, start, |a.units|, raw);
  }

  lemma NameBoundsRead(b: seq<byte>, at: nat, content: seq<byte>)
    requires |content| >= 66 && |b| == RECORD_SIZE
    requires StandsAt(b, at, ResidentAttribute(ATTRIBUTE_FILE_NAME, content))
    ensures AttributeAt(b, at) && AttributeEnd(b, at) == at + |ResidentAttribute(ATTRIBUTE_FILE_NAME, content)|
    ensures DataAt(b, at) == None
    ensures NameBounds(b, at) == Some((at + RESIDENT_HEADER, at + RESIDENT_HEADER + |content|))
    ensures StandsAt(b, at + RESIDENT_HEADER, content)
  {
    ResidentParts(b, at, ATTRIBUTE_FILE_NAME, content);
  }

  lemma FileNameReads(b: seq<byte>, at: nat, a: Appended, isDirectory: bool)
    requires a.FileName? && Appendable(a) && |b| == RECORD_SIZE && StandsAt(b, at, AttributeBytes(a))
    ensures AttributeAt(b, at) && AttributeEnd(b, at) == at + |AttributeBytes(a)|
    ensures DataAt(b, at) == None
    ensures FileNameAt(b, at, isDirectory) == NameOf(a, isDirectory)
  {
    NameBoundsRead(b, at, NameContent(a.units, a.parentRef, a.nameNamespace));
    NameContentReads(b, at + RESIDENT_HEADER, a, isDirectory);
  }

  lemma AttributeReads(b: seq<byte>, at: nat, a: Appended, isDirectory: bool)
    requires Appendable(a) && |b| == RECORD_SIZE && StandsAt(b, at, AttributeBytes(a))
    ensures AttributeAt(b, at) && AttributeEnd(b, at) == at + |AttributeBytes(a)|
    ensures DataAt(b, at) == DataOf(a) && FileNameAt(b, at, isDirectory) == NameOf(a, isDirectory)
  {
    match a
    case FileName(_, _, _) => FileNameReads(b, at, a, isDirectory);
    case ResidentData(content) => ResidentDataReads(b, at, content);
    case NonResidentData(runs, realSize) =>
      NonResidentDataReads(b, at, runs, realSize);
      NonResidentParts(b, at, EncodedRuns(runs), realSize);
      DataIsNoName(b, at, isDirectory);
  }

  lemma NamesWalkStep(b: seq<byte>, at: nat, next: nat, a: Appended, isDirectory: bool, names: seq<MftFileName>)
    requires AttributeAt(b, at) && AttributeEnd(b, at) == next &&
      FileNameAt(b, at, isDirectory) == NameOf(a, isDirectory)
    requires NamesFrom(b, next, isDirectory) == names
    ensures NamesFrom(b, at, isDirectory) == OneOrNone(NameOf(a, isDirectory)) + names
  {
    FirstName(b, at, AttributesFrom(b, next), isDirectory);
  }

  lemma DataWalkStep(b: seq<byte>, at: nat, next: nat, a: Appended, datas: seq<DataAttribute>)
    requires Appendable(a) && AttributeAt(b, at) && AttributeEnd(b, at) == next && DataAt(b, at) == DataOf(a)
    requires DataFrom(b, next) == datas
    ensures DataFrom(b, at) == OneOrNone(DataOf(a)) + datas
  {
    FirstData(b, at, AttributesFrom(b, next));
  }

  //
  // The whole record
  //

  function NamesOf(attributes: seq<Appended>, isDirectory: bool): seq<MftFileName> {
    if attributes == [] then []
    else OneOrNone(NameOf(attributes[0], isDirectory)) + NamesOf(attributes[1..], isDirectory)
  }

  function DatasOf(attributes: seq<Appended>): seq<DataAttribute>
    requires forall a :: a in attributes ==> Appendable(a)
  {
    if attributes == [] then [] else OneOrNone(DataOf(attributes[0])) + DatasOf(attributes[1..])
  }

  lemma EndMarkerStopsWalk(b: seq<byte>, at: nat)
    requires StandsAt(b, at, Digits(ATTRIBUTE_END, 4))
    ensures !AttributeAt(b, at)
  {
    Word32OfDigits(b, at, ATTRIBUTE_END);
  }

  /** The attribute at `at` is what the builder call `a` wrote. */
  predicate IsRead(b: seq<byte>, at: nat, a: Appended, isDirectory: bool)
    requires Appendable(a)
  {
    AttributeAt(b, at) && DataAt(b, at) == DataOf(a) && FileNameAt(b, at, isDirectory) == NameOf(a, isDirectory)
  }

  /** From `at` on stand the attributes these builder calls wrote, and nothing else. */
  predicate Reads(b: seq<byte>, at: nat, attributes: seq<Appended>, isDirectory: bool)
    requires forall a :: a in attributes ==> Appendable(a)
    decreases |attributes|
  {
    if attributes == [] then !AttributeAt(b, at)
    else IsRead(b, at, attributes[0], isDirectory) && Reads(b, AttributeEnd(b, at), attributes[1..], isDirectory)
  }

  /** The bytes of each attribute. */
  predicate ArePieces(pieces: seq<seq<byte>>, attributes: seq<Appended>)
    requires forall a :: a in attributes ==> Appendable(a)
  {
    && |pieces| == |attributes|
    && forall i {:trigger AttributeBytes(attributes[i])} :: 0 <= i < |attributes| ==>
         pieces[i] == AttributeBytes(attributes[i])
  }

  lemma {:induction false} LayoutIsFlat(pieces: seq<seq<byte>>, attributes: seq<Appended>)
    requires (forall a :: a in attributes ==> Appendable(a)) && ArePieces(pieces, attributes)
    ensures Layout(attributes) == Flatten(pieces)
    decreases |attributes|
  {
    if attributes != [] {
      RestArePieces(pieces, attributes);
      LayoutIsFlat(pieces[1..], attributes[1..]);
    }
  }

  lemma {:induction false} FirstPieceIsRead(b: seq<byte>, at: nat, piece: seq<byte>, a: Appended, isDirectory: bool)
    requires Appendable(a) && |b| == RECORD_SIZE && StandsAt(b, at, piece) && piece == AttributeBytes(a)
    ensures IsRead(b, at, a, isDirectory) && AttributeEnd(b, at) == at + |piece|
  {
    AttributeReads(b, at, a, isDirectory);
  }

  lemma RestArePieces(pieces: seq<seq<byte>>, attributes: seq<Appended>)
    requires (forall a :: a in attributes ==> Appendable(a)) && ArePieces(pieces, attributes) && attributes != []
    ensures pieces[0] == AttributeBytes(attributes[0]) && ArePieces(pieces[1..], attributes[1..])
  {
  }

  lemma {:induction false} LayoutReads(b: seq<byte>, at: nat, pieces: seq<seq<byte>>, attributes: seq<Appended>,
                                       isDirectory: bool)
    requires (forall a :: a in attributes ==> Appendable(a)) && ArePieces(pieces, attributes)
    requires |b| == RECORD_SIZE && PiecesStand(b, at, pieces, Digits(ATTRIBUTE_END, 4))
    ensures Reads(b, at, attributes, isDirectory)
    decreases |attributes|
  {
    if attributes == [] {
      EndMarkerStopsWalk(b, at);
    } else {
      RestArePieces(pieces, attributes);
      FirstPieceStands(b, at, pieces, Digits(ATTRIBUTE_END, 4));
      FirstPieceIsRead(b, at, pieces[0], attributes[0], isDirectory);
      LayoutReads(b, at + |pieces[0]|, pieces[1..], attributes[1..], isDirectory);
      ReadsMore(b, at, attributes, isDirectory);
    }
  }

  lemma ReadsMore(b: seq<byte>, at: nat, attributes: seq<Appended>, isDirectory: bool)
    requires attributes != [] && forall a :: a in attributes ==> Appendable(a)
    requires IsRead(b, at, attributes[0], isDirectory)
    requires Reads(b, AttributeEnd(b, at), attributes[1..], isDirectory)
    ensures Reads(b, at, attributes, isDirectory)
  {
  }

  lemma {:induction false} NamesAreRead(b: seq<byte>, at: nat, attributes: seq<Appended>, isDirectory: bool)
    requires (forall a :: a in attributes ==> Appendable(a)) && Reads(b, at, attributes, isDirectory)
    ensures NamesFrom(b, at, isDirectory) == NamesOf(attributes, isDirectory)
    decreases |attributes|
  {
    if attributes != [] {
      var next := AttributeEnd(b, at);
      NamesAreRead(b, next, attributes[1..], isDirectory);
      NamesWalkStep(b, at, next, attributes[0], isDirectory, NamesOf(attributes[1..], isDirectory));
    }
  }

  lemma {:induction false} DatasAreRead(b: seq<byte>, at: nat, attributes: seq<Appended>, isDirectory: bool)
    requires (forall a :: a in attributes ==> Appendable(a)) && Reads(b, at, attributes, isDirectory)
    ensures DataFrom(b, at) == DatasOf(attributes)
    decreases |attributes|
  {
    if attributes != [] {
      var next := AttributeEnd(b, at);
      DatasAreRead(b, next, attributes[1..], isDirectory);
      DataWalkStep(b, at, next, attributes[0], DatasOf(attributes[1..]));
    }
  }

  lemma WalkReads(b: seq<byte>, at: nat, attributes: seq<Appended>, isDirectory: bool)
    requires forall a :: a in attributes ==> Appendable(a)
    requires |b| == RECORD_SIZE && StandsAt(b, at, Layout(attributes) + Digits(ATTRIBUTE_END, 4))
    ensures NamesFrom(b, at, isDirectory) == NamesOf(attributes, isDirectory)
    ensures DataFrom(b, at) == DatasOf(attributes)
  {
    var pieces := seq(|attributes|, i requires 0 <= i < |attributes| => AttributeBytes(attributes[i]));
    LayoutIsFlat(pieces, attributes);
    FlattenStands(b, at, pieces, Digits(ATTRIBUTE_END, 4));
    LayoutReads(b, at, pieces, attributes, isDirectory);
    NamesAreRead(b, at, attributes, isDirectory);
    DatasAreRead(b, at, attributes, isDirectory);
  }

  lemma FixedFields(b: seq<byte>)
    requires StandsAt(b, 0, HeaderFixed())
    ensures b[..4] == FILE_SIGNATURE && Word16(b, 4) == USA_OFFSET && Word16(b, 6) == 3
    ensures Word16(b, 0x14) == FIRST_ATTRIBUTE_OFFSET
  {
    var h1 := FILE_SIGNATURE + Digits(USA_OFFSET, 2);
    var h2 := h1 + Digits(3, 2);
    var h3 := h2 + Zeros(8);
    var h4 := h3 + Digits(1, 2);
    var h5 := h4 + Zeros(2);
    StandsAtParts(b, 0, h5, Digits(FIRST_ATTRIBUTE_OFFSET, 2));
    StandsAtParts(b, 0, h4, Zeros(2));
    StandsAtParts(b, 0, h3, Digits(1, 2));
    StandsAtParts(b, 0, h2, Zeros(8));
    StandsAtParts(b, 0, h1, Digits(3, 2));
    StandsAtParts(b, 0, FILE_SIGNATURE, Digits(USA_OFFSET, 2));
    Word16OfDigits(b, 4, USA_OFFSET);
    Word16OfDigits(b, 6, 3);
    Word16OfDigits(b, 0x14, FIRST_ATTRIBUTE_OFFSET);
  }

  lemma HeaderFields(b: seq<byte>, number: nat, flags: nat, used: nat)
    requires StandsAt(b, 0, Header(number, flags, used)) && number <= ATTRIBUTE_END && flags <= 0xFFFF
    ensures b[..4] == FILE_SIGNATURE && Word16(b, 4) == USA_OFFSET && Word16(b, 6) == 3
    ensures Word16(b, 0x14) == FIRST_ATTRIBUTE_OFFSET && Word16(b, 0x16) == flags && Word32(b, 0x2C) == number
  {
    var h1 := HeaderFixed() + Digits(flags, 2);
    var h2 := h1 + Digits(used, 4);
    var h3 := h2 + HeaderMiddle();
    StandsAtParts(b, 0, h3 + Digits(number, 4), Zeros(8));
    StandsAtParts(b, 0, h3, Digits(number, 4));
    StandsAtParts(b, 0, h2, HeaderMiddle());
    StandsAtParts(b, 0, h1, Digits(used, 4));
    StandsAtParts(b, 0, HeaderFixed(), Digits(flags, 2));
    FixedFields(b);
    Word16OfDigits(b, 0x16, flags);
    Word32OfDigits(b, 0x2C, number);
  }

  lemma CompletedParts(number: nat, flags: nat, layout: seq<byte>)
    requires FIRST_ATTRIBUTE_OFFSET + |layout| + 4 <= RECORD_SIZE
    ensures var b := Completed(number, flags, layout);
            && StandsAt(b, 0, Header(number, flags, FIRST_ATTRIBUTE_OFFSET + |layout| + 4))
            && StandsAt(b, FIRST_ATTRIBUTE_OFFSET, layout + Digits(ATTRIBUTE_END, 4))
  {
    AssembledParts(Header(number, flags, FIRST_ATTRIBUTE_OFFSET + |layout| + 4), layout);
  }

  lemma HeaderIsFixable(b: seq<byte>, number: nat, flags: nat, used: nat)
    requires |b| == RECORD_SIZE && StandsAt(b, 0, Header(number, flags, used))
    requires number <= ATTRIBUTE_END && flags <= 0xFFFF
    ensures Fixable(b, USA_OFFSET, 2) && b[..4] == FILE_SIGNATURE
  {
    HeaderFields(b, number, flags, used);
  }

  lemma CompletedIsFixable(number: nat, flags: nat, layout: seq<byte>)
    requires FIRST_ATTRIBUTE_OFFSET + |layout| + 4 <= RECORD_SIZE && number <= ATTRIBUTE_END && flags <= 0xFFFF
    ensures Fixable(Completed(number, flags, layout), USA_OFFSET, 2)
    ensures Completed(number, flags, layout)[..4] == FILE_SIGNATURE
  {
    CompletedParts(number, flags, layout);
    HeaderIsFixable(Completed(number, flags, layout), number, flags, FIRST_ATTRIBUTE_OFFSET + |layout| + 4);
  }

  /** The stamped record keeps its signature. */
  lemma AppliedSignature(b: seq<byte>)
    requires Fixable(b, USA_OFFSET, 2) && b[..4] == FILE_SIGNATURE
    ensures Applied(b, USA_OFFSET, SEQUENCE_LOW, SEQUENCE_HIGH, 2)[..4] == FILE_SIGNATURE
  {
    var stamped := PutWord16(b, USA_OFFSET, SEQUENCE_LOW, SEQUENCE_HIGH);
    AppliedKeeps(stamped, USA_OFFSET, SEQUENCE_LOW, SEQUENCE_HIGH, 0, 2, 0);
    AppliedKeeps(stamped, USA_OFFSET, SEQUENCE_LOW, SEQUENCE_HIGH, 0, 2, 2);
    var a := Applied(b, USA_OFFSET, SEQUENCE_LOW, SEQUENCE_HIGH, 2);
    assert a[0] == b[..4][0] && a[1] == b[..4][1] && a[2] == b[..4][2] && a[3] == b[..4][3];
  }

  /** Restoring a stamped record gives the record back, except inside the update sequence array. */
  lemma StampedRestores(b: seq<byte>)
    requires |b| == RECORD_SIZE && Fixable(b, USA_OFFSET, 2) && b[..4] == FILE_SIGNATURE
    ensures var r := RestoredRecord(Applied(b, USA_OFFSET, SEQUENCE_LOW, SEQUENCE_HIGH, 2));
            && r.Some?
            && forall i :: 0 <= i < RECORD_SIZE && !(USA_OFFSET <= i < USA_OFFSET + 6) ==> r.value[i] == b[i]
  {
    AppliedSignature(b);
    RestoreUndoesApply(b, USA_OFFSET, SEQUENCE_LOW, SEQUENCE_HIGH, 2);
  }

  /** Restoring a built record gives the finished record back, except inside the update sequence array. */
  lemma BuiltRestores(number: nat, flags: nat, attributes: seq<Appended>)
    requires Fits(attributes) && number <= ATTRIBUTE_END && flags <= 0xFFFF
    ensures var r := RestoredRecord(Built(number, flags, attributes, false));
            && r.Some?
            && forall i :: 0 <= i < RECORD_SIZE && !(USA_OFFSET <= i < USA_OFFSET + 6) ==>
                             r.value[i] == Finished(number, flags, attributes)[i]
  {
    CompletedIsFixable(number, flags, Layout(attributes));
    StampedRestores(Finished(number, flags, attributes));
  }

  /** What a reader needs of a record with these attributes. */
  predicate ReadsAs(r: seq<byte>, number: nat, flags: nat, contents: seq<byte>)
    requires |r| == RECORD_SIZE
  {
    && Word16(r, 0x14) == FIRST_ATTRIBUTE_OFFSET && Word16(r, 0x16) == flags && Word32(r, 0x2C) == number
    && StandsAt(r, FIRST_ATTRIBUTE_OFFSET, contents)
  }

  lemma ReadsAsOutsideArray(r: seq<byte>, u: seq<byte>, number: nat, flags: nat, contents: seq<byte>)
    requires |r| == RECORD_SIZE && |u| == RECORD_SIZE && ReadsAs(u, number, flags, contents)
    requires forall i :: 0 <= i < RECORD_SIZE && !(USA_OFFSET <= i < USA_OFFSET + 6) ==> r[i] == u[i]
    ensures ReadsAs(r, number, flags, contents)
  {
    var end := FIRST_ATTRIBUTE_OFFSET + |contents|;
    assert r[FIRST_ATTRIBUTE_OFFSET..end] == u[FIRST_ATTRIBUTE_OFFSET..end];
  }

  lemma CompletedReadsAs(number: nat, flags: nat, layout: seq<byte>)
    requires FIRST_ATTRIBUTE_OFFSET + |layout| + 4 <= RECORD_SIZE && number <= ATTRIBUTE_END && flags <= 0xFFFF
    ensures ReadsAs(Completed(number, flags, layout), number, flags, layout + Digits(ATTRIBUTE_END, 4))
  {
    CompletedParts(number, flags, layout);
    HeaderFields(Completed(number, flags, layout), number, flags, FIRST_ATTRIBUTE_OFFSET + |layout| + 4);
  }

  /** The restored record has the header fields and the attributes that were written. */
  lemma BuiltReads(number: nat, flags: nat, attributes: seq<Appended>)
    requires Fits(attributes) && number <= ATTRIBUTE_END && flags <= 0xFFFF
    ensures var r := RestoredRecord(Built(number, flags, attributes, false));
            r.Some? && ReadsAs(r.value, number, flags, Layout(attributes) + Digits(ATTRIBUTE_END, 4))
  {
    CompletedReadsAs(number, flags, Layout(attributes));
    BuiltRestores(number, flags, attributes);
    ReadsAsOutsideArray(RestoredRecord(Built(number, flags, attributes, false)).value,
                        Finished(number, flags, attributes),
                        number, flags, Layout(attributes) + Digits(ATTRIBUTE_END, 4));
  }

  /** Main result: for every sequence of builder calls that fits, the parser returns exactly the appended data
      attributes and names, and the header's number. */
  lemma WholeRecordRoundTrip(number: nat, flags: nat, attributes: seq<Appended>, offset: nat)
    requires Fits(attributes) && number <= ATTRIBUTE_END && flags <= 0xFFFF
    ensures var built := Built(number, flags, attributes, false);
            var names := NamesOf(attributes, flags / 2 % 2 == 1);
            && DataAttributesOf(built) == DatasOf(attributes)
            && RecordNumberOf(built) == Some(number)
            && ParsedRecord(built, offset) ==
               if names == [] then None
               else Some(MftRecord(if number != 0 then number else offset / RECORD_SIZE, offset, names))
  {
    BuiltReads(number, flags, attributes);
    var r := RestoredRecord(Built(number, flags, attributes, false)).value;
    WalkReads(r, FIRST_ATTRIBUTE_OFFSET, attributes, flags / 2 % 2 == 1);
  }

  /** Main result: a corrupted fixup makes every reader reject the record. */
  lemma CorruptRecordIsRejected(number: nat, flags: nat, attributes: seq<Appended>, offset: nat)
    requires Fits(attributes) && number <= ATTRIBUTE_END && flags <= 0xFFFF
    ensures var built := Built(number, flags, attributes, true);
            && DataAttributesOf(built) == [] && RecordNumberOf(built) == None && ParsedRecord(built, offset) == None
  {
    var b := Finished(number, flags, attributes);
    CompletedIsFixable(number, flags, Layout(attributes));
    AlteredTrailerIsDetected(b, USA_OFFSET, SEQUENCE_LOW, SEQUENCE_HIGH, 2, Built(number, flags, attributes, true),
                             510);
  }

  /** Main result: a non-resident attribute is dropped exactly when a running sum of its distances leaves
      0..2^63-1; otherwise its runs are the ones appended, each at the running sum. */
  lemma NonResidentDataKept(runs: seq<RunSpec>, realSize: uint64)
    ensures var data := DataOf(NonResidentData(runs, realSize));
            && (data.Some? <==> SumsInRange(runs))
            && (data.Some? ==> data.value.realSize == realSize && IsLayoutOf(data.value.runs, runs))
  {
    PlacedIff(runs);
  }

  lemma {:induction false} ZeroUnitsVanish(units: seq<codeUnit>, k: nat)
    requires k <= |units|
    ensures Utf8From(units, k) == [] <==> forall i :: k <= i < |units| ==> units[i] == 0
    decreases |units| - k
  {
    if k < |units| {
      Utf8Step(units, k);
      ZeroUnitsVanish(units, NextUnit(units, k));
    }
  }

  /** Main result: a name is dropped exactly when every code unit is NUL; otherwise its text decodes to the
      code points of the units, and its parent reference keeps 48 bits. */
  lemma NameKept(units: seq<codeUnit>, parentRef: uint64, nameNamespace: byte, isDirectory: bool)
    ensures var name := NameOf(FileName(units, parentRef, nameNamespace), isDirectory);
            && (name.None? <==> forall i :: 0 <= i < |units| ==> units[i] == 0)
            && (name.Some? ==>
                  && Utf8Decode(name.value.name) == Some(DropZeros(ScalarsFrom(units, 0)))
                  && name.value.parentRef == parentRef % 0x1_0000_0000_0000
                  && name.value.nameNamespace == nameNamespace && name.value.isDirectory == isDirectory)
  {
    UnitsOfUtf16le(units);
    ZeroUnitsVanish(units, 0);
    ConversionKeepsMeaning(Utf16le(units));
  }
}
