/** The fixture builder: it writes a record in place, field by field. */
module RecordBuilder {
  import opened Bits
  import opened Sequences
  import opened LittleEndian
  import opened MachineInts
  import opened DataRuns
  import opened Utf
  import opened MftRecord
  import opened RecordFormat
  import opened UpdateSequence

  //
  // Writing fields one after the other
  //

  lemma PutAfter(base: seq<byte>, at: nat, prefix: seq<byte>, d: seq<byte>)
    requires at + |prefix| + |d| <= |base|
    ensures Put(Put(base, at, prefix), at + |prefix|, d) == Put(base, at, prefix + d)
  {
  }

  /** Zero bytes that are there already count as written. */
  lemma PutOverZeros(base: seq<byte>, at: nat, prefix: seq<byte>, n: nat)
    requires at + |prefix| + n <= |base|
    requires forall i :: at + |prefix| <= i < at + |prefix| + n ==> base[i] == 0
    ensures Put(base, at, prefix) == Put(base, at, prefix + Zeros(n))
  {
  }

  lemma PutZeroAgain(base: seq<byte>, at: nat, prefix: seq<byte>)
    requires at + |prefix| < |base| && base[at + |prefix|] == 0
    ensures Put(Put(base, at, prefix), at + |prefix|, [0]) == Put(base, at, prefix)
  {
  }

  lemma PutNothing(base: seq<byte>, at: nat)
    requires at <= |base|
    ensures Put(base, at, []) == base
  {
  }

  lemma PutWhole(base: seq<byte>, d: seq<byte>)
    requires |d| == |base|
    ensures Put(base, 0, d) == d
  {
  }

  /** Writes the field that follows `prefix` in the stretch starting at `at`. */
  method PutNext(bytes: array<byte>, ghost base: seq<byte>, ghost at: nat, ghost prefix: seq<byte>,
                 offset: nat, size: nat, value: nat)
    requires at + |prefix| == offset && offset + size <= bytes.Length == |base|
    requires bytes[..] == Put(base, at, prefix)
    modifies bytes
    ensures bytes[..] == Put(base, at, prefix + Digits(value, size))
  {
    var ok := PutLe(bytes, offset, size, value);
    PutAfter(base, at, prefix, Digits(value, size));
  }

  method CopyInto(bytes: array<byte>, offset: nat, content: seq<byte>)
    requires offset + |content| <= bytes.Length
    modifies bytes
    ensures bytes[..] == Put(old(bytes[..]), offset, content)
  {
    forall i | 0 <= i < |content| {
      bytes[offset + i] := content[i];
    }
    assert forall i :: offset <= i < offset + |content| ==> bytes[i] == content[i - offset];
  }

  /** Copies an attribute's content behind its header; the padding is zero already. */
  method WriteBody(bytes: array<byte>, ghost base: seq<byte>, ghost at: nat, ghost header: seq<byte>,
                   offset: nat, content: seq<byte>, ghost padding: nat)
    requires at + |header| == offset && offset + |content| + padding <= bytes.Length == |base|
    requires bytes[..] == Put(base, at, header)
    requires forall i :: offset <= i < offset + |content| + padding ==> base[i] == 0
    modifies bytes
    ensures bytes[..] == Put(base, at, header + content + Zeros(padding))
  {
    CopyInto(bytes, offset, content);
    PutAfter(base, at, header, content);
    PutOverZeros(base, at, header + content, padding);
  }

  /** Rounds up to a multiple of eight, in 64-bit arithmetic. */
  method AlignUp(value: uint64) returns (r: nat)
    ensures r == Align8(value) % (UINT64_MAX + 1)
    ensures value + 7 <= UINT64_MAX ==> r == Align8(value)
  {
    Pow2Of64();
    assert Pow2(64) == 8 * Pow2(61);
    var sum := (value + 7) % (UINT64_MAX + 1);
    AndNotSeven(sum, 61);
    r := BitAnd(sum, 0xFFFF_FFFF_FFFF_FFF8);
    WrappedAlign(value, sum);
  }

  lemma WrappedAlign(value: uint64, sum: nat)
    requires sum == (value + 7) % (UINT64_MAX + 1)
    ensures sum / 8 * 8 == Align8(value) % (UINT64_MAX + 1)
    ensures value + 7 <= UINT64_MAX ==> sum == value + 7 && Align8(value) <= UINT64_MAX
  {
    if value + 7 > UINT64_MAX {
      DivModUnique(value + 7, UINT64_MAX + 1, 1, value + 7 - UINT64_MAX - 1);
      DivModUnique(Align8(value), UINT64_MAX + 1, 1, 0);
    } else {
      DivModUnique(value + 7, UINT64_MAX + 1, 0, value + 7);
      DivModUnique(Align8(value), UINT64_MAX + 1, 0, Align8(value));
    }
  }

  method EncodeUtf16le(units: seq<codeUnit>) returns (result: seq<byte>)
    ensures result == Utf16le(units)
  {
    result := [];
    for k := 0 to |units|
      invariant Utf16le(units) == result + Utf16le(units[k..])
    {
      var low := LowByte(units[k]);
      var high := LowByte(units[k] / 256);
      Utf16leStep(result, units, k);
      result := result + [low, high];
    }
    NothingAdded(result);
  }

  lemma Utf16leStep(result: seq<byte>, units: seq<codeUnit>, k: nat)
    requires k < |units|
    ensures result + Utf16le(units[k..]) == result + [units[k] % 256, units[k] / 256] + Utf16le(units[k + 1..])
  {
    assert units[k..][1..] == units[k + 1..];
  }

  //
  // Stamping the sectors
  //

  lemma PutDigits2(s: seq<byte>, offset: nat, v: nat)
    requires offset + 2 <= |s| && v < 0x1_0000
    ensures Put(s, offset, Digits(v, 2)) == PutWord16(s, offset, v % 256, v / 256)
  {
    assert Digits(v, 2) == [v % 256, v / 256];
  }

  /** Writes a 16-bit field that lies inside the record. */
  method PutU16(bytes: array<byte>, offset: nat, v: nat)
    requires offset + 2 <= bytes.Length && v < 0x1_0000
    modifies bytes
    ensures bytes[..] == PutWord16(old(bytes[..]), offset, v % 256, v / 256)
  {
    PutDigits2(bytes[..], offset, v);
    var ok := PutLe(bytes, offset, 2, v);
  }

  method ApplyUsa(bytes: array<byte>, corrupt: bool)
    requires bytes.Length == RECORD_SIZE
    modifies bytes
    ensures var applied := Applied(old(bytes[..]), USA_OFFSET, SEQUENCE_LOW, SEQUENCE_HIGH, 2);
            bytes[..] == if corrupt then applied[510 := ToggleLowBit(applied[510])] else applied
  {
    ghost var original := bytes[..];
    PutU16(bytes, USA_OFFSET, 0xA55A);
    var sector := 0;
    while sector < 2
      invariant 0 <= sector <= 2
      invariant Applied(original, USA_OFFSET, SEQUENCE_LOW, SEQUENCE_HIGH, 2) ==
                AppliedFrom(bytes[..], USA_OFFSET, SEQUENCE_LOW, SEQUENCE_HIGH, sector, 2)
    {
      var trailer := (sector + 1) * 512 - 2;
      ghost var before := bytes[..];
      var current := ReadU16(bytes[..], trailer);
      BytesOfWord(before, trailer);
      PutU16(bytes, USA_OFFSET + 2 + sector * 2, current.value);
      PutU16(bytes, trailer, 0xA55A);
      assert bytes[..] == Stamped(before, USA_OFFSET, SEQUENCE_LOW, SEQUENCE_HIGH, sector);
      sector := sector + 1;
    }
    if corrupt {
      bytes[510] := ToggleLowBit(bytes[510]);
    }
  }

  //
  // Headers
  //

  lemma {:induction false} ZeroDigits(n: nat)
    ensures Digits(0, n) == Zeros(n)
  {
    if n > 0 { ZeroDigits(n - 1); }
  }

  /** Replacing the middle of three parts. */
  lemma PutMiddle(a: seq<byte>, b: seq<byte>, c: seq<byte>, d: seq<byte>)
    requires |d| == |b|
    ensures Put(a + b + c, |a|, d) == a + d + c
  {
  }

  //
  // Drafts
  //

  lemma PutInFirst(a: seq<byte>, rest: seq<byte>, offset: nat, d: seq<byte>)
    requires offset + |d| <= |a|
    ensures Put(a + rest, offset, d) == Put(a, offset, d) + rest
  {
  }

  lemma PutInFirstOfThree(a: seq<byte>, b: seq<byte>, c: seq<byte>, offset: nat, d: seq<byte>)
    requires offset + |d| <= |a|
    ensures Put(a + b + c, offset, d) == Put(a, offset, d) + b + c
  {
    Regroup(a, b, c);
    PutInFirst(a, b + c, offset, d);
    Regroup(Put(a, offset, d), b, c);
  }

  /** Writing the end marker, and then a field of the header. */
  lemma PutMarkerThenField(header: seq<byte>, layout: seq<byte>, n: nat, marker: seq<byte>, offset: nat, d: seq<byte>)
    requires |marker| <= n && offset + |d| <= |header|
    ensures Put(Put(header + layout + Zeros(n), |header| + |layout|, marker), offset, d) ==
            Put(header, offset, d) + layout + marker + Zeros(n - |marker|)
  {
    PutAtEnd(header + layout, n, marker);
    Regroup(header, layout, marker);
    PutInFirstOfThree(header, layout + marker, Zeros(n - |marker|), offset, d);
    Regroup(Put(header, offset, d), layout, marker);
  }

  lemma HeaderWithNumber(number: nat, flags: nat, used: nat, value: nat)
    ensures Put(Header(number, flags, used), 0x2C, Digits(value, 4)) == Header(value, flags, used)
  {
    PutMiddle(HeaderFixed() + Digits(flags, 2) + Digits(used, 4) + HeaderMiddle(), Digits(number, 4), Zeros(8),
              Digits(value, 4));
  }

  lemma HeaderWithUsed(number: nat, flags: nat, used: nat, value: nat)
    ensures Put(Header(number, flags, used), 0x18, Digits(value, 4)) == Header(number, flags, value)
  {
    var front, back := HeaderFixed() + Digits(flags, 2), HeaderMiddle() + Digits(number, 4) + Zeros(8);
    FourPartsRegroup(front + Digits(used, 4), HeaderMiddle(), Digits(number, 4), Zeros(8));
    FourPartsRegroup(front + Digits(value, 4), HeaderMiddle(), Digits(number, 4), Zeros(8));
    PutMiddle(front, Digits(used, 4), back, Digits(value, 4));
  }

  lemma HeaderWithFlags(number: nat, flags: nat, used: nat, value: nat)
    ensures Put(Header(number, flags, used), 0x16, Digits(value, 2)) == Header(number, value, used)
  {
    var back := Digits(used, 4) + HeaderMiddle() + (Digits(number, 4) + Zeros(8));
    FiveParts(HeaderFixed() + Digits(flags, 2), Digits(used, 4), HeaderMiddle(), Digits(number, 4), Zeros(8));
    FiveParts(HeaderFixed() + Digits(value, 2), Digits(used, 4), HeaderMiddle(), Digits(number, 4), Zeros(8));
    PutMiddle(HeaderFixed(), Digits(flags, 2), back, Digits(value, 2));
  }

  lemma FourPartsRegroup(a: seq<byte>, b: seq<byte>, c: seq<byte>, d: seq<byte>)
    ensures a + b + c + d == a + (b + c + d)
  {
  }

  lemma FiveParts(a: seq<byte>, b: seq<byte>, c: seq<byte>, d: seq<byte>, e: seq<byte>)
    ensures a + b + c + d + e == a + (b + c + (d + e))
  {
    FourPartsRegroup(a, b, c, d + e);
    Regroup(a + b + c, d, e);
  }

  lemma PaddedPutHeader(header: seq<byte>, layout: seq<byte>, offset: nat, d: seq<byte>)
    requires |header| + |layout| <= RECORD_SIZE && offset + |d| <= |header|
    ensures Put(Padded(header, layout), offset, d) == Padded(Put(header, offset, d), layout)
  {
    PutInFirstOfThree(header, layout, Zeros(RECORD_SIZE - |header| - |layout|), offset, d);
  }

  lemma PutAtEnd(front: seq<byte>, n: nat, d: seq<byte>)
    requires |d| <= n
    ensures Put(front + Zeros(n), |front|, d) == front + d + Zeros(n - |d|)
  {
  }

  /** `contents` is the buffer after these builder calls, with free space from `offset` on. */
  ghost predicate IsDraft(contents: seq<byte>, offset: nat, number: nat, flags: nat, attributes: seq<Appended>) {
    && Fits(attributes) && number <= ATTRIBUTE_END && flags <= 0xFFFF
    && offset == FIRST_ATTRIBUTE_OFFSET + |Layout(attributes)|
    && contents == Draft(number, flags, attributes)
  }

  lemma DraftWithNumber(contents: seq<byte>, offset: nat, number: nat, flags: nat, attributes: seq<Appended>,
                        value: nat)
    requires IsDraft(contents, offset, number, flags, attributes) && value <= ATTRIBUTE_END
    ensures IsDraft(Put(contents, 0x2C, Digits(value, 4)), offset, value, flags, attributes)
  {
    PaddedPutHeader(Header(number, flags, 0), Layout(attributes), 0x2C, Digits(value, 4));
    HeaderWithNumber(number, flags, 0, value);
  }

  lemma DraftWithFlags(contents: seq<byte>, offset: nat, number: nat, flags: nat, attributes: seq<Appended>, value: nat)
    requires IsDraft(contents, offset, number, flags, attributes) && value <= 0xFFFF
    ensures IsDraft(Put(contents, 0x16, Digits(value, 2)), offset, number, value, attributes)
  {
    PaddedPutHeader(Header(number, flags, 0), Layout(attributes), 0x16, Digits(value, 2));
    HeaderWithFlags(number, flags, 0, value);
  }

  lemma DraftTail(contents: seq<byte>, offset: nat, number: nat, flags: nat, attributes: seq<Appended>)
    requires IsDraft(contents, offset, number, flags, attributes)
    ensures |contents| == RECORD_SIZE && forall i :: offset <= i < RECORD_SIZE ==> contents[i] == 0
  {
    var front := Header(number, flags, 0) + Layout(attributes);
    assert contents == front + Zeros(RECORD_SIZE - offset);
  }

  lemma FitsAppend(attributes: seq<Appended>, a: Appended)
    requires Fits(attributes) && Appendable(a)
    ensures Fits(attributes + [a]) <==>
            FIRST_ATTRIBUTE_OFFSET + |Layout(attributes)| + |AttributeBytes(a)| + 4 <= RECORD_SIZE
  {
    LayoutAppend(attributes, a);
  }

  lemma DraftAppend(contents: seq<byte>, offset: nat, number: nat, flags: nat, attributes: seq<Appended>, a: Appended)
    requires IsDraft(contents, offset, number, flags, attributes) && Appendable(a)
    ensures |contents| == RECORD_SIZE && forall i :: offset <= i < RECORD_SIZE ==> contents[i] == 0
    ensures Fits(attributes + [a]) <==> offset + |AttributeBytes(a)| + 4 <= RECORD_SIZE
    ensures Fits(attributes + [a]) ==>
              IsDraft(Put(contents, offset, AttributeBytes(a)), offset + |AttributeBytes(a)|, number, flags,
                      attributes + [a])
  {
    DraftTail(contents, offset, number, flags, attributes);
    FitsAppend(attributes, a);
    if Fits(attributes + [a]) {
      DraftGrows(contents, offset, number, flags, attributes, a);
    }
  }

  lemma DraftGrows(contents: seq<byte>, offset: nat, number: nat, flags: nat, attributes: seq<Appended>, a: Appended)
    requires IsDraft(contents, offset, number, flags, attributes) && Appendable(a) && Fits(attributes + [a])
    requires |contents| == RECORD_SIZE && offset + |AttributeBytes(a)| + 4 <= RECORD_SIZE
    ensures IsDraft(Put(contents, offset, AttributeBytes(a)), offset + |AttributeBytes(a)|, number, flags,
                    attributes + [a])
  {
    var header, layout := Header(number, flags, 0), Layout(attributes);
    LayoutAppend(attributes, a);
    PutAtEnd(header + layout, RECORD_SIZE - offset, AttributeBytes(a));
    Regroup(header, layout, AttributeBytes(a));
  }

  lemma FinishDraft(number: nat, flags: nat, attributes: seq<Appended>)
    requires Fits(attributes)
    ensures var end := FIRST_ATTRIBUTE_OFFSET + |Layout(attributes)|;
            Put(Put(Draft(number, flags, attributes), end, Digits(ATTRIBUTE_END, 4)), 0x18, Digits(end + 4, 4)) ==
            Finished(number, flags, attributes)
  {
    var end := FIRST_ATTRIBUTE_OFFSET + |Layout(attributes)|;
    PutMarkerThenField(Header(number, flags, 0), Layout(attributes), RECORD_SIZE - end, Digits(ATTRIBUTE_END, 4),
                       0x18, Digits(end + 4, 4));
    HeaderWithUsed(number, flags, 0, end + 4);
  }

  //
  // The builder
  //

  class FileRecordBuilder {
    var bytes: array<byte>
    var attributeOffset: nat
    var corrupt: bool
    // What has been asked of the builder so far.
    ghost var number: nat
    ghost var flags: nat
    ghost var attributes: seq<Appended>

    ghost predicate Valid()
      reads this, bytes
    {
      bytes.Length == RECORD_SIZE && IsDraft(bytes[..], attributeOffset, number, flags, attributes)
    }

    constructor ()
      ensures Valid() && fresh(bytes)
      ensures number == 42 && flags == 1 && attributes == [] && !corrupt
    {
      bytes := new byte[RECORD_SIZE](_ => 0);
      attributeOffset := FIRST_ATTRIBUTE_OFFSET;
      corrupt := false;
      number, flags, attributes := 42, 1, [];
      new;
      WriteHeader(bytes);
      NothingAdded(Header(42, 1, 0));
    }

    static method WriteHeader(bytes: array<byte>)
      requires bytes.Length == RECORD_SIZE && bytes[..] == Zeros(RECORD_SIZE)
      modifies bytes
      ensures bytes[..] == Header(42, 1, 0) + Zeros(RECORD_SIZE - FIRST_ATTRIBUTE_OFFSET)
    {
      ghost var base := bytes[..];
      WriteFixed(bytes);
      PutNext(bytes, base, 0, HeaderFixed(), 0x16, 2, 1);
      ZeroDigits(4);
      PutOverZeros(base, 0, HeaderFixed() + Digits(1, 2), 4);
      WriteSizeAndNumber(bytes, base, HeaderFixed() + Digits(1, 2) + Digits(0, 4));
      NothingAdded(base);
      PutAtEnd([], RECORD_SIZE, Header(42, 1, 0));
    }

    /** The last two fields of the header, behind `head`. */
    static method WriteSizeAndNumber(bytes: array<byte>, ghost base: seq<byte>, ghost head: seq<byte>)
      requires bytes.Length == RECORD_SIZE && base == Zeros(RECORD_SIZE)
      requires |head| == 0x1C && bytes[..] == Put(base, 0, head)
      modifies bytes
      ensures bytes[..] == Put(base, 0, head + HeaderMiddle() + Digits(42, 4) + Zeros(8))
    {
      PutNext(bytes, base, 0, head, 0x1C, 4, RECORD_SIZE);
      PutOverZeros(base, 0, head + Digits(RECORD_SIZE, 4), 12);
      Regroup(head, Digits(RECORD_SIZE, 4), Zeros(12));
      PutNext(bytes, base, 0, head + HeaderMiddle(), 0x2C, 4, 42);
      PutOverZeros(base, 0, head + HeaderMiddle() + Digits(42, 4), 8);
    }

    static method WriteFixed(bytes: array<byte>)
      requires bytes.Length == RECORD_SIZE && bytes[..] == Zeros(RECORD_SIZE)
      modifies bytes
      ensures bytes[..] == Put(old(bytes[..]), 0, HeaderFixed())
    {
      ghost var base := bytes[..];
      CopyInto(bytes, 0, FILE_SIGNATURE);
      PutNext(bytes, base, 0, FILE_SIGNATURE, 0x04, 2, USA_OFFSET);
      ghost var h1 := FILE_SIGNATURE + Digits(USA_OFFSET, 2);
      PutNext(bytes, base, 0, h1, 0x06, 2, 3);
      ghost var h2 := h1 + Digits(3, 2) + Zeros(8);
      PutOverZeros(base, 0, h1 + Digits(3, 2), 8);
      PutNext(bytes, base, 0, h2, 0x10, 2, 1);
      ghost var h3 := h2 + Digits(1, 2) + Zeros(2);
      PutOverZeros(base, 0, h2 + Digits(1, 2), 2);
      PutNext(bytes, base, 0, h3, 0x14, 2, FIRST_ATTRIBUTE_OFFSET);
    }

    method RecordNumber(value: nat)
      requires Valid() && value <= ATTRIBUTE_END
      modifies this`number, bytes
      ensures Valid() && number == value
    {
      DraftWithNumber(bytes[..], attributeOffset, number, flags, attributes, value);
      var ok := PutLe(bytes, 0x2C, 4, value);
      number := value;
    }

    method Flags(value: nat)
      requires Valid() && value <= 0xFFFF
      modifies this`flags, bytes
      ensures Valid() && flags == value
    {
      DraftWithFlags(bytes[..], attributeOffset, number, flags, attributes, value);
      var ok := PutLe(bytes, 0x16, 2, value);
      flags := value;
    }

    method InvalidUsa()
      requires Valid()
      modifies this`corrupt
      ensures Valid() && corrupt
    {
      corrupt := true;
    }

    /** False stands for the length_error exception, thrown exactly when the attribute does not fit. */
    method AppendResidentAttribute(kind: nat, content: seq<byte>, ghost a: Appended) returns (ok: bool)
      requires Valid() && Appendable(a) && AttributeBytes(a) == ResidentAttribute(kind, content)
      requires |content| <= INT64_MAX
      modifies this`attributeOffset, this`attributes, bytes
      ensures Valid()
      ensures ok == Fits(old(attributes) + [a])
      ensures attributes == if ok then old(attributes) + [a] else old(attributes)
    {
      DraftAppend(bytes[..], attributeOffset, number, flags, attributes, a);
      var attributeSize := AlignUp(RESIDENT_HEADER + |content|);
      if attributeOffset > bytes.Length || attributeSize + 4 > bytes.Length - attributeOffset {
        return false;
      }
      WriteResident(bytes, attributeOffset, kind, content, attributeSize);
      attributeOffset := attributeOffset + attributeSize;
      attributes := attributes + [a];
      return true;
    }

    static method WriteResident(bytes: array<byte>, at: nat, kind: nat, content: seq<byte>, size: nat)
      requires size == Align8(RESIDENT_HEADER + |content|) && at + size <= bytes.Length
      requires forall i :: at <= i < at + size ==> bytes[i] == 0
      modifies bytes
      ensures bytes[..] == Put(old(bytes[..]), at, ResidentAttribute(kind, content))
    {
      ghost var base := bytes[..];
      WriteResidentHeader(bytes, at, kind, |content|, size);
      WriteBody(bytes, base, at, ResidentHeader(kind, |content|), at + RESIDENT_HEADER, content,
                size - RESIDENT_HEADER - |content|);
    }

    static method WriteResidentHeader(bytes: array<byte>, at: nat, kind: nat, length: nat, size: nat)
      requires size == Align8(RESIDENT_HEADER + length) && at + RESIDENT_HEADER <= bytes.Length
      requires forall i :: at <= i < at + RESIDENT_HEADER ==> bytes[i] == 0
      modifies bytes
      ensures bytes[..] == Put(old(bytes[..]), at, ResidentHeader(kind, length))
    {
      ghost var base := bytes[..];
      PutNothing(base, at);
      PutNext(bytes, base, at, [], at, 4, kind);
      NothingAdded(Digits(kind, 4));
      PutNext(bytes, base, at, Digits(kind, 4), at + 4, 4, size);
      ghost var h3 := Digits(kind, 4) + Digits(size, 4) + Zeros(8);
      CopyInto(bytes, at + 8, [0]);
      PutZeroAgain(base, at, Digits(kind, 4) + Digits(size, 4));
      PutOverZeros(base, at, Digits(kind, 4) + Digits(size, 4), 8);
      PutNext(bytes, base, at, h3, at + 16, 4, length);
      ghost var h4 := h3 + Digits(length, 4);
      PutNext(bytes, base, at, h4, at + 20, 2, RESIDENT_HEADER);
      PutOverZeros(base, at, h4 + Digits(RESIDENT_HEADER, 2), 2);
    }

    /** An exception is thrown when the name is too long for its length field, or does not fit. */
    method FileName(units: seq<codeUnit>, parentRef: uint64, nameNamespace: byte) returns (ok: bool)
      requires Valid()
      modifies this`attributeOffset, this`attributes, bytes
      ensures Valid()
      ensures var a := Appended.FileName(units, parentRef, nameNamespace);
              && ok == (Appendable(a) && Fits(old(attributes) + [a]))
              && attributes == if ok then old(attributes) + [a] else old(attributes)
    {
      if |units| > 255 {
        return false;
      }
      var header := new byte[66](_ => 0);
      WriteNameHeader(header, parentRef, |units|, nameNamespace);
      var nameBytes := EncodeUtf16le(units);
      var content := header[..] + nameBytes;
      ok := AppendResidentAttribute(ATTRIBUTE_FILE_NAME, content, Appended.FileName(units, parentRef, nameNamespace));
    }

    static method WriteNameHeader(header: array<byte>, parentRef: uint64, length: byte, nameNamespace: byte)
      requires header.Length == 66 && header[..] == Zeros(66)
      modifies header
      ensures header[..] == NameHeader(parentRef, length, nameNamespace)
    {
      ghost var base := header[..];
      PutNothing(base, 0);
      PutNext(header, base, 0, [], 0, 8, parentRef);
      NothingAdded(Digits(parentRef, 8));
      ghost var h2 := Digits(parentRef, 8) + Zeros(32);
      PutOverZeros(base, 0, Digits(parentRef, 8), 32);
      PutNext(header, base, 0, h2, 40, 8, 4096);
      ghost var h3 := h2 + Digits(4096, 8);
      PutNext(header, base, 0, h3, 48, 8, 1234);
      ghost var h5 := h3 + Digits(1234, 8) + Zeros(8);
      PutOverZeros(base, 0, h3 + Digits(1234, 8), 8);
      CopyInto(header, 64, [length, nameNamespace]);
      PutAfter(base, 0, h5, [length, nameNamespace]);
      PutWhole(base, h5 + [length, nameNamespace]);
    }

    method ResidentData(data: seq<byte>) returns (ok: bool)
      requires Valid() && |data| <= INT64_MAX
      modifies this`attributeOffset, this`attributes, bytes
      ensures Valid()
      ensures var a := Appended.ResidentData(data);
              && ok == Fits(old(attributes) + [a])
              && attributes == if ok then old(attributes) + [a] else old(attributes)
    {
      ok := AppendResidentAttribute(ATTRIBUTE_DATA, data, Appended.ResidentData(data));
    }

    method NonResidentData(runs: seq<RunSpec>, realSize: uint64) returns (ok: bool)
      requires Valid() && |EncodedRuns(runs)| <= INT64_MAX
      modifies this`attributeOffset, this`attributes, bytes
      ensures Valid()
      ensures var a := Appended.NonResidentData(runs, realSize);
              && ok == Fits(old(attributes) + [a])
              && attributes == if ok then old(attributes) + [a] else old(attributes)
    {
      var runBytes := EncodeRuns(runs);
      ok := AppendNonResident(runBytes, realSize, Appended.NonResidentData(runs, realSize));
    }

    method AppendNonResident(runBytes: seq<byte>, realSize: uint64, ghost a: Appended) returns (ok: bool)
      requires Valid() && Appendable(a) && |runBytes| <= INT64_MAX
      requires AttributeBytes(a) == NonResidentAttribute(runBytes, realSize)
      modifies this`attributeOffset, this`attributes, bytes
      ensures Valid()
      ensures ok == Fits(old(attributes) + [a])
      ensures attributes == if ok then old(attributes) + [a] else old(attributes)
    {
      DraftAppend(bytes[..], attributeOffset, number, flags, attributes, a);
      var attributeSize := AlignUp(NON_RESIDENT_HEADER + |runBytes|);
      if attributeOffset > bytes.Length || attributeSize + 4 > bytes.Length - attributeOffset {
        return false;
      }
      WriteNonResident(bytes, attributeOffset, runBytes, realSize, attributeSize);
      attributeOffset := attributeOffset + attributeSize;
      attributes := attributes + [a];
      return true;
    }

    static method WriteNonResident(bytes: array<byte>, at: nat, runBytes: seq<byte>, realSize: uint64, size: nat)
      requires size == Align8(NON_RESIDENT_HEADER + |runBytes|) && at + size <= bytes.Length
      requires forall i :: at <= i < at + size ==> bytes[i] == 0
      modifies bytes
      ensures bytes[..] == Put(old(bytes[..]), at, NonResidentAttribute(runBytes, realSize))
    {
      ghost var base := bytes[..];
      WriteNonResidentHeader(bytes, at, |runBytes|, realSize, size);
      WriteBody(bytes, base, at, NonResidentHeader(|runBytes|, realSize), at + NON_RESIDENT_HEADER, runBytes,
                size - NON_RESIDENT_HEADER - |runBytes|);
    }

    static method WriteNonResidentHeader(bytes: array<byte>, at: nat, ghost runLength: nat, realSize: uint64, size: nat)
      requires size == Align8(NON_RESIDENT_HEADER + runLength) && at + NON_RESIDENT_HEADER <= bytes.Length
      requires forall i :: at <= i < at + NON_RESIDENT_HEADER ==> bytes[i] == 0
      modifies bytes
      ensures bytes[..] == Put(old(bytes[..]), at, NonResidentHeader(runLength, realSize))
    {
      ghost var base := bytes[..];
      PutNothing(base, at);
      PutNext(bytes, base, at, [], at, 4, ATTRIBUTE_DATA);
      NothingAdded(Digits(ATTRIBUTE_DATA, 4));
      ghost var h1 := Digits(ATTRIBUTE_DATA, 4);
      PutNext(bytes, base, at, h1, at + 4, 4, size);
      ghost var h2 := h1 + Digits(size, 4);
      CopyInto(bytes, at + 8, [1]);
      PutAfter(base, at, h2, [1]);
      ghost var h4 := h2 + [1] + Zeros(23);
      PutOverZeros(base, at, h2 + [1], 23);
      PutNext(bytes, base, at, h4, at + 32, 2, NON_RESIDENT_HEADER);
      ghost var h5 := h4 + Digits(NON_RESIDENT_HEADER, 2);
      PutOverZeros(base, at, h5, 14);
      PutNext(bytes, base, at, h5 + Zeros(14), at + 48, 8, realSize);
      PutOverZeros(base, at, h5 + Zeros(14) + Digits(realSize, 8), 8);
    }

    /** The finished record; the builder itself is unchanged. */
    method Build() returns (result: seq<byte>)
      requires Valid()
      ensures result == Built(number, flags, attributes, corrupt)
    {
      FinishDraft(number, flags, attributes);
      result := FinishCopy(bytes[..], attributeOffset, corrupt);
    }

    static method FinishCopy(contents: seq<byte>, end: nat, corrupt: bool) returns (result: seq<byte>)
      requires |contents| == RECORD_SIZE && end + 4 <= RECORD_SIZE
      ensures var finished := Put(Put(contents, end, Digits(ATTRIBUTE_END, 4)), 0x18, Digits(end + 4, 4));
              var applied := Applied(finished, USA_OFFSET, SEQUENCE_LOW, SEQUENCE_HIGH, 2);
              result == if corrupt then applied[510 := ToggleLowBit(applied[510])] else applied
    {
      var copy := new byte[|contents|](i requires 0 <= i < |contents| => contents[i]);
      assert copy[..] == contents;
      WriteEnd(copy, end);
      ApplyUsa(copy, corrupt);
      return copy[..];
    }

    static method WriteEnd(copy: array<byte>, end: nat)
      requires copy.Length == RECORD_SIZE && end + 4 <= RECORD_SIZE
      modifies copy
      ensures copy[..] == Put(Put(old(copy[..]), end, Digits(ATTRIBUTE_END, 4)), 0x18, Digits(end + 4, 4))
    {
      var ok := PutLe(copy, end, 4, ATTRIBUTE_END);
      ok := PutLe(copy, 0x18, 4, end + 4);
    }
  }
}
