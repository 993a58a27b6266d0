/** The byte layout of a FILE record, as the fixture builder of the test suite writes it. */
module RecordFormat {
  import opened Sequences
  import opened LittleEndian
  import opened MachineInts
  import opened DataRuns
  import opened Utf
  import opened MftRecord
  import opened UpdateSequence

  const USA_OFFSET: nat := 0x30
  const FIRST_ATTRIBUTE_OFFSET: nat := 0x38
  const SEQUENCE_LOW: byte := 0x5A
  const SEQUENCE_HIGH: byte := 0xA5
  const RESIDENT_HEADER: nat := 24
  const NON_RESIDENT_HEADER: nat := 64

  /** One call of the builder that appends an attribute. */
  datatype Appended =
    | FileName(units: seq<codeUnit>, parentRef: uint64, nameNamespace: byte)
    | ResidentData(content: seq<byte>)
    | NonResidentData(runs: seq<RunSpec>, realSize: uint64)

  function Align8(n: nat): (r: nat)
    ensures n <= r < n + 8
  {
    (n + 7) / 8 * 8
  }

  function Utf16le(units: seq<codeUnit>): (s: seq<byte>)
    ensures |s| == 2 * |units|
  {
    if units == [] then [] else [units[0] % 256, units[0] / 256] + Utf16le(units[1..])
  }

  /** The fixed part of a name attribute's content. */
  function NameHeader(parentRef: uint64, length: byte, nameNamespace: byte): (s: seq<byte>)
    ensures |s| == 66
  {
    Digits(parentRef, 8) + Zeros(32) + Digits(4096, 8) + Digits(1234, 8) + Zeros(8) + [length, nameNamespace]
  }

  function NameContent(units: seq<codeUnit>, parentRef: uint64, nameNamespace: byte): (s: seq<byte>)
    requires |units| <= 255
    ensures |s| == 66 + 2 * |units|
  {
    NameHeader(parentRef, |units|, nameNamespace) + Utf16le(units)
  }

  /** The header of a resident attribute that claims to be `size` bytes long. */
  function SizedHeader(kind: nat, size: nat, contentLength: nat): (s: seq<byte>)
    ensures |s| == RESIDENT_HEADER
  {
    Digits(kind, 4) + Digits(size, 4) + Zeros(8)
    + Digits(contentLength, 4) + Digits(RESIDENT_HEADER, 2) + Zeros(2)
  }

  function ResidentHeader(kind: nat, contentLength: nat): (s: seq<byte>)
    ensures |s| == RESIDENT_HEADER
  {
    SizedHeader(kind, Align8(RESIDENT_HEADER + contentLength), contentLength)
  }

  function ResidentAttribute(kind: nat, content: seq<byte>): (s: seq<byte>)
    ensures |s| == Align8(RESIDENT_HEADER + |content|)
  {
    ResidentHeader(kind, |content|) + content
    + Zeros(Align8(RESIDENT_HEADER + |content|) - RESIDENT_HEADER - |content|)
  }

  function NonResidentHeader(runLength: nat, realSize: uint64): (s: seq<byte>)
    ensures |s| == NON_RESIDENT_HEADER
  {
    Digits(ATTRIBUTE_DATA, 4) + Digits(Align8(NON_RESIDENT_HEADER + runLength), 4) + [1] + Zeros(23)
    + Digits(NON_RESIDENT_HEADER, 2) + Zeros(14) + Digits(realSize, 8) + Zeros(8)
  }

  function NonResidentAttribute(encoded: seq<byte>, realSize: uint64): (s: seq<byte>)
    ensures |s| == Align8(NON_RESIDENT_HEADER + |encoded|)
  {
    NonResidentHeader(|encoded|, realSize) + encoded
    + Zeros(Align8(NON_RESIDENT_HEADER + |encoded|) - NON_RESIDENT_HEADER - |encoded|)
  }

  /** Names longer than 255 units cannot be appended; a payload's size is a machine word. */
  predicate Appendable(a: Appended) {
    && (a.FileName? ==> |a.units| <= 255)
    && (a.ResidentData? ==> |a.content| <= UINT64_MAX)
  }

  function AttributeBytes(a: Appended): (s: seq<byte>)
    requires Appendable(a)
    ensures |s| >= RESIDENT_HEADER
  {
    match a
    case FileName(units, parentRef, ns) => ResidentAttribute(ATTRIBUTE_FILE_NAME, NameContent(units, parentRef, ns))
    case ResidentData(content) => ResidentAttribute(ATTRIBUTE_DATA, content)
    case NonResidentData(runs, realSize) => NonResidentAttribute(EncodedRuns(runs), realSize)
  }

  function Layout(attributes: seq<Appended>): seq<byte>
    requires forall a :: a in attributes ==> Appendable(a)
  {
    if attributes == [] then [] else AttributeBytes(attributes[0]) + Layout(attributes[1..])
  }

  lemma {:induction false} LayoutAppend(attributes: seq<Appended>, a: Appended)
    requires (forall x :: x in attributes ==> Appendable(x)) && Appendable(a)
    ensures Layout(attributes + [a]) == Layout(attributes) + AttributeBytes(a)
  {
    if attributes == [] {
      assert [] + [a] == [a];
      assert Layout([]) == [];
    } else {
      assert (attributes + [a])[1..] == attributes[1..] + [a];
      LayoutAppend(attributes[1..], a);
    }
  }

  /** Signature, update-sequence fields, sequence number and first attribute offset. */
  function HeaderFixed(): (s: seq<byte>)
    ensures |s| == 0x16
  {
    FILE_SIGNATURE + Digits(USA_OFFSET, 2) + Digits(3, 2) + Zeros(8) + Digits(1, 2) + Zeros(2)
    + Digits(FIRST_ATTRIBUTE_OFFSET, 2)
  }

  function HeaderMiddle(): (s: seq<byte>)
    ensures |s| == 0x10
  {
    Digits(RECORD_SIZE, 4) + Zeros(12)
  }

  /** The record header; `used` is zero until the record is finished. */
  function Header(number: nat, flags: nat, used: nat): (s: seq<byte>)
    ensures |s| == FIRST_ATTRIBUTE_OFFSET
  {
    HeaderFixed() + Digits(flags, 2) + Digits(used, 4) + HeaderMiddle() + Digits(number, 4) + Zeros(8)
  }

  /** The attributes and the end marker fit behind the header. */
  predicate Fits(attributes: seq<Appended>) {
    && (forall a :: a in attributes ==> Appendable(a))
    && FIRST_ATTRIBUTE_OFFSET + |Layout(attributes)| + 4 <= RECORD_SIZE
  }

  /** A header and attributes, filled up with zeros. */
  function Padded(header: seq<byte>, layout: seq<byte>): (s: seq<byte>)
    requires |header| + |layout| <= RECORD_SIZE
    ensures |s| == RECORD_SIZE
  {
    header + layout + Zeros(RECORD_SIZE - |header| - |layout|)
  }

  /** The builder's buffer while attributes are being appended. */
  function Draft(number: nat, flags: nat, attributes: seq<Appended>): (s: seq<byte>)
    requires Fits(attributes)
    ensures |s| == RECORD_SIZE
  {
    Padded(Header(number, flags, 0), Layout(attributes))
  }

  /** A header, attributes and the end marker, filled up to a record. */
  function Assembled(header: seq<byte>, layout: seq<byte>): (s: seq<byte>)
    requires |header| + |layout| + 4 <= RECORD_SIZE
    ensures |s| == RECORD_SIZE
  {
    FourParts(header, layout, Digits(ATTRIBUTE_END, 4), Zeros(RECORD_SIZE - |header| - |layout| - 4))
  }

  /** A record with this layout, and the number of used bytes in its header. */
  function Completed(number: nat, flags: nat, layout: seq<byte>): (s: seq<byte>)
    requires FIRST_ATTRIBUTE_OFFSET + |layout| + 4 <= RECORD_SIZE
    ensures |s| == RECORD_SIZE
  {
    Assembled(Header(number, flags, FIRST_ATTRIBUTE_OFFSET + |layout| + 4), layout)
  }

  lemma AssembledParts(header: seq<byte>, layout: seq<byte>)
    requires |header| + |layout| + 4 <= RECORD_SIZE
    ensures StandsAt(Assembled(header, layout), 0, header)
    ensures StandsAt(Assembled(header, layout), |header|, layout + Digits(ATTRIBUTE_END, 4))
  {
    FourPartsStand(header, layout, Digits(ATTRIBUTE_END, 4), Zeros(RECORD_SIZE - |header| - |layout| - 4));
  }

  /** The finished record before its sectors are stamped. */
  function Finished(number: nat, flags: nat, attributes: seq<Appended>): (s: seq<byte>)
    requires Fits(attributes)
    ensures |s| == RECORD_SIZE
  {
    Completed(number, flags, Layout(attributes))
  }

  /** Flips the lowest bit. */
  function ToggleLowBit(b: byte): byte {
    if b % 2 == 0 then b + 1 else b - 1
  }

  /** The record as `build` returns it; a corrupt one has a bit of its first trailer flipped. */
  function Built(number: nat, flags: nat, attributes: seq<Appended>, corrupt: bool): (s: seq<byte>)
    requires Fits(attributes)
    ensures |s| == RECORD_SIZE
  {
    var applied := Applied(Finished(number, flags, attributes), USA_OFFSET, SEQUENCE_LOW, SEQUENCE_HIGH, 2);
    if corrupt then applied[510 := ToggleLowBit(applied[510])] else applied
  }
}
