/** NTFS data runs: the variable-width signed delta code, both directions. */
module DataRuns {
  import opened Options
  import opened Bits
  import opened LittleEndian
  import opened MachineInts
  import opened Sequences

  /** A parsed run; a sparse run has no place on the disk and its `lcn` stays zero. */
  datatype DataRun = DataRun(lcn: uint64, clusterCount: uint64, sparse: bool)

  /** What the writer encodes: a length, and the distance from the previous run or None for a hole. */
  datatype RunSpec = RunSpec(clusterCount: uint64, lcnDelta: Option<sint64>)

  //
  // Reading
  //

  /** The number that `n` bytes denote in two's complement. */
  function TwosComplement(raw: nat, n: nat): int
    requires n > 0
  {
    if raw < Pow2(8 * n - 1) then raw else raw - Pow2(8 * n)
  }

  function Prefixed(runs: seq<DataRun>, rest: Option<seq<DataRun>>): Option<seq<DataRun>> {
    if rest.Some? then Some(runs + rest.value) else None
  }

  /** The run whose header is at `offset`, and where the next header is; `lcn` is where the last run started. */
  function RunAt(bytes: seq<byte>, offset: nat, end: nat, lcn: int): (r: Option<(DataRun, nat)>)
    requires offset < end <= |bytes|
    ensures r.Some? ==> offset < r.value.1 <= end
    ensures r.Some? && !r.value.0.sparse ==> r.value.0.lcn <= INT64_MAX
  {
    var lengthSize, offsetSize := bytes[offset] % 16, bytes[offset] / 16;
    var lengthAt := offset + 1;
    var deltaAt := lengthAt + lengthSize;
    var next := deltaAt + offsetSize;
    if lengthSize == 0 || lengthSize > 8 || offsetSize > 8 || next > end then None
    else
      var count := WordAt(bytes, lengthAt, lengthSize);
      if offsetSize == 0 then Some((DataRun(0, count, true), next))
      else
        var run := MovedRun(count, TwosComplement(WordAt(bytes, deltaAt, offsetSize), offsetSize), lcn);
        if run.Some? then Some((run.value, next)) else None
  }

  /** A run at distance `delta` from `lcn`, unless that is no valid cluster number. */
  function MovedRun(count: uint64, delta: int, lcn: int): Option<DataRun> {
    if 0 <= lcn + delta <= INT64_MAX then Some(DataRun(lcn + delta, count, false)) else None
  }

  /** Holes do not move the current position. */
  function NextLcn(lcn: int, run: DataRun): int {
    if run.sparse then lcn else run.lcn
  }

  /** The runs encoded in `bytes[offset..end]` when the previous run started at `lcn`. */
  function ParsedRuns(bytes: seq<byte>, offset: nat, end: nat, lcn: int): Option<seq<DataRun>>
    requires end <= |bytes|
    decreases end - offset
  {
    if offset >= end then None
    else if bytes[offset] == 0 then Some([])
    else
      match RunAt(bytes, offset, end, lcn)
      case None => None
      case Some((run, next)) => Prefixed([run], ParsedRuns(bytes, next, end, NextLcn(lcn, run)))
  }

  function WordAt(bytes: seq<byte>, offset: nat, n: nat): (w: uint64)
    requires n <= 8 && offset + n <= |bytes|
  {
    ValueBound(bytes, offset, n);
    WidthFits(n);
    ValueAt(bytes, offset, n)
  }

  method SignExtend(value: uint64, byteCount: nat) returns (r: sint64)
    ensures byteCount == 0 || byteCount >= 8 ==> r == ToSigned(value)
    ensures 0 < byteCount <= 8 && value < Pow2(8 * byteCount) ==> r == TwosComplement(value, byteCount)
  {
    if byteCount == 0 || byteCount >= 8 {
      CastIsTwosComplement(value);
      return ToSigned(value);
    }
    WidthFits(byteCount);
    assert byteCount * 8 == 8 * byteCount;
    var signBit := Pow2(byteCount * 8 - 1);
    if value < Pow2(8 * byteCount) { SignBitTest(value, byteCount); }
    if BitAnd(value, signBit) == 0 {
      return ToSigned(value);
    }
    var mask: uint64 := UINT64_MAX - (Pow2(byteCount * 8) - 1);
    return ToSigned(BitOr(value, mask));
  }

  lemma WidthFits(n: nat)
    requires n <= 8
    ensures Pow2(8 * n) <= UINT64_MAX + 1
  {
    Pow2Monotonic(8 * n, 64);
    Pow2Of64();
  }

  lemma SignBitTest(value: uint64, n: nat)
    requires 0 < n < 8 && value < Pow2(8 * n) <= UINT64_MAX + 1
    ensures if BitAnd(value, Pow2(8 * n - 1)) == 0
            then ToSigned(value) == TwosComplement(value, n)
            else ToSigned(BitOr(value, UINT64_MAX - (Pow2(8 * n) - 1))) == TwosComplement(value, n)
  {
    AndSingleBit(value, 8 * n - 1);
    TopBit(value, 8 * n);
    if value < Pow2(8 * n - 1) {
      SmallIsUnchanged(value, n);
    } else {
      FilledIsNegative(value, n);
    }
  }

  lemma CastIsTwosComplement(value: uint64)
    ensures ToSigned(value) == TwosComplement(value, 8)
  {
    Pow2Of64();
  }

  lemma SmallIsUnchanged(value: uint64, n: nat)
    requires 0 < n < 8 && value < Pow2(8 * n - 1)
    ensures ToSigned(value) == value
  {
    Pow2Monotonic(8 * n - 1, 63);
    Pow2Of64();
  }

  lemma FilledIsNegative(value: uint64, n: nat)
    requires 0 < n < 8 && Pow2(8 * n - 1) <= value < Pow2(8 * n)
    ensures Pow2(8 * n) <= UINT64_MAX
    ensures ToSigned(BitOr(value, UINT64_MAX - (Pow2(8 * n) - 1))) == value - Pow2(8 * n)
  {
    var m := Pow2(8 * n);
    Pow2Monotonic(8 * n, 63);
    Pow2Of64();
    OrWithHighMask(value, 8 * n);
    DivModUnique(UINT64_MAX - (m - 1) + value, UINT64_MAX + 1, 0, UINT64_MAX - (m - 1) + value);
  }

  lemma TopBit(value: nat, k: nat)
    requires k > 0 && value < Pow2(k)
    ensures (value / Pow2(k - 1)) % 2 == if value < Pow2(k - 1) then 0 else 1
  {
    var m := Pow2(k - 1);
    if value < m {
      DivModUnique(value, m, 0, value);
    } else {
      DivModUnique(value, m, 1, value - m);
    }
  }

  lemma OrWithHighMask(value: nat, k: nat)
    requires k <= 64 && value < Pow2(k) <= UINT64_MAX + 1
    ensures BitOr(value, UINT64_MAX - (Pow2(k) - 1)) == UINT64_MAX - (Pow2(k) - 1) + value
  {
    var h, p := Pow2(64 - k), Pow2(k);
    ComplementaryPowers(k);
    OneLess(h, p);
    OrIsSum(h - 1, value, k);
    OrCommutes(value, (h - 1) * p);
  }

  lemma ComplementaryPowers(k: nat)
    requires k <= 64
    ensures Pow2(64 - k) * Pow2(k) == UINT64_MAX + 1
  {
    Pow2Of64();
    Pow2Add(64 - k, k);
  }

  /** The two fields of a run header. */
  method UnpackHeader(header: byte) returns (low: nat, high: nat)
    ensures low == header % 16 && high == header / 16
  {
    assert Pow2(4) == 16;
    low := MaskLow(header, 0x0F, 4);
    high := MaskLow(header / 16, 0x0F, 4);
  }

  /** Keeps the low `k` bits of a word. */
  method MaskLow(word: nat, mask: nat, ghost k: nat) returns (r: nat)
    requires mask == Pow2(k) - 1
    ensures r == word % Pow2(k)
  {
    AndLowMask(word, k);
    return BitAnd(word, mask);
  }

  method PackHeader(offsetWidth: nat, lengthWidth: nat) returns (header: byte)
    requires offsetWidth < 16 && lengthWidth < 16
    ensures header == offsetWidth * 16 + lengthWidth
  {
    assert Pow2(4) == 16;
    OrIsSum(offsetWidth, lengthWidth, 4);
    return BitOr(offsetWidth * 16, lengthWidth);
  }

  method ReadWord(bytes: seq<byte>, offset: nat, n: nat) returns (word: uint64)
    requires n <= 8 && offset + n <= |bytes|
    ensures word == WordAt(bytes, offset, n)
  {
    WidthFits(n);
    word := Assemble(bytes, offset, n);
  }

  method ReadDelta(bytes: seq<byte>, offset: nat, n: nat) returns (delta: sint64)
    requires 0 < n <= 8 && offset + n <= |bytes|
    ensures delta == TwosComplement(WordAt(bytes, offset, n), n)
  {
    var raw := ReadWord(bytes, offset, n);
    ValueBound(bytes, offset, n);
    delta := SignExtend(raw, n);
  }

  /** The body of the reading loop, for a header that is not the terminator. */
  method ReadRun(bytes: seq<byte>, at: nat, end: nat, currentLcn: sint64) returns (result: Option<(DataRun, nat)>)
    requires at < end <= |bytes| && currentLcn >= 0
    ensures result == RunAt(bytes, at, end, currentLcn)
  {
    var lengthAt := at + 1;
    var lengthSize, offsetSize := UnpackHeader(bytes[at]);
    if lengthSize == 0 || lengthSize > 8 || offsetSize > 8 || lengthAt + lengthSize + offsetSize > end {
      RunAtRejects(bytes, at, end, lengthSize, offsetSize, currentLcn);
      return None;
    }
    var deltaAt := lengthAt + lengthSize;
    var next := deltaAt + offsetSize;
    var clusterCount := ReadWord(bytes, lengthAt, lengthSize);
    if offsetSize == 0 {
      RunAtFields(bytes, at, end, RunSpec(clusterCount, None), lengthSize, 0, currentLcn);
      return Some((DataRun(0, clusterCount, true), next));
    }
    var delta := ReadDelta(bytes, deltaAt, offsetSize);
    RunAtFields(bytes, at, end, RunSpec(clusterCount, Some(delta)), lengthSize, offsetSize, currentLcn);
    var nextLcn := CheckedAdd(currentLcn, delta);
    if nextLcn.None? || nextLcn.value < 0 {
      return None;
    }
    return Some((DataRun(nextLcn.value, clusterCount, false), next));
  }

  method ParseDataRuns(bytes: seq<byte>, start: nat, end: nat) returns (result: Option<seq<DataRun>>)
    requires end <= |bytes|
    ensures result == ParsedRuns(bytes, start, end, 0)
  {
    var offset := start;
    var runs: seq<DataRun> := [];
    var currentLcn: sint64 := 0;
    NothingPrefixed(ParsedRuns(bytes, start, end, 0));
    while offset < end
      invariant start <= offset && currentLcn >= 0
      invariant ParsedRuns(bytes, start, end, 0) == Prefixed(runs, ParsedRuns(bytes, offset, end, currentLcn))
      decreases end - offset
    {
      if bytes[offset] == 0 {
        assert runs + [] == runs;
        return Some(runs);
      }
      var read := ReadRun(bytes, offset, end, currentLcn);
      if read.None? {
        return None;
      }
      var run;
      run, offset := read.value.0, read.value.1;
      if !run.sparse {
        currentLcn := run.lcn;
      }
      PrefixedTwice(runs, run, ParsedRuns(bytes, offset, end, currentLcn));
      runs := runs + [run];
    }
    return None;
  }

  lemma NothingPrefixed(rest: Option<seq<DataRun>>)
    ensures Prefixed([], rest) == rest
  {
    if rest.Some? { assert [] + rest.value == rest.value; }
  }

  lemma PrefixedTwice(runs: seq<DataRun>, run: DataRun, rest: Option<seq<DataRun>>)
    ensures Prefixed(runs, Prefixed([run], rest)) == Prefixed(runs + [run], rest)
  {
    if rest.Some? { assert runs + ([run] + rest.value) == runs + [run] + rest.value; }
  }

  //
  // Writing
  //

  /** How many bytes an unsigned number takes; at least one. */
  function UnsignedWidthOf(v: nat): (w: nat)
    ensures w >= 1
  {
    if v < 256 then 1 else 1 + UnsignedWidthOf(v / 256)
  }

  /** How many bytes a number takes in two's complement. */
  function SignedWidthOf(v: int): (w: nat)
    ensures w >= 1
    decreases if v < 0 then -v else v
  {
    if -128 <= v < 128 then 1 else 1 + SignedWidthOf(v / 256)
  }

  predicate FitsSigned(v: int, width: nat)
    requires width > 0
  {
    0 - Pow2(8 * width - 1) <= v < Pow2(8 * width - 1)
  }

  /** `UnsignedWidthOf` is the least width that holds the number. */
  lemma {:induction false} UnsignedWidthIsLeast(v: nat, width: nat)
    requires width > 0
    ensures v < Pow2(8 * width) <==> UnsignedWidthOf(v) <= width
    decreases width
  {
    Pow2NextByte(8 * (width - 1));
    if width == 1 {
      assert Pow2(0) == 1;
    } else {
      if v < 256 { Pow2Monotonic(8, 8 * width); Pow2Of32(); }
      UnsignedWidthIsLeast(v / 256, width - 1);
    }
  }

  /** `SignedWidthOf` is the least width that holds the number. */
  lemma {:induction false} SignedWidthIsLeast(v: int, width: nat)
    requires width > 0
    ensures FitsSigned(v, width) <==> SignedWidthOf(v) <= width
    decreases width
  {
    if width == 1 {
      assert Pow2(7) == 128;
    } else {
      Pow2NextByte(8 * (width - 1) - 1);
      SignedWidthIsLeast(v / 256, width - 1);
      if -128 <= v < 128 { assert v / 256 == 0 || v / 256 == -1; }
    }
  }

  lemma WidthsFit(v: uint64, d: sint64)
    ensures UnsignedWidthOf(v) <= 8 && SignedWidthOf(d) <= 8
  {
    Pow2Of64();
    UnsignedWidthIsLeast(v, 8);
    SignedWidthIsLeast(d, 8);
  }

  function DeltaWidth(spec: RunSpec): (w: nat) {
    if spec.lcnDelta.Some? then SignedWidthOf(spec.lcnDelta.value) else 0
  }

  /** How many bytes the fields of a run take. */
  datatype Widths = Widths(length: nat, offset: nat)

  /** The widths hold the run: both fields fit their bytes, and exactly holes have no distance. */
  predicate Hold(w: Widths, spec: RunSpec) {
    && 1 <= w.length <= 8 && spec.clusterCount < Pow2(8 * w.length)
    && (spec.lcnDelta.None? ==> w.offset == 0)
    && (spec.lcnDelta.Some? ==> 1 <= w.offset <= 8 && FitsSigned(spec.lcnDelta.value, w.offset))
  }

  function LeastWidths(spec: RunSpec): (w: Widths)
    ensures Hold(w, spec)
  {
    var delta := if spec.lcnDelta.Some? then spec.lcnDelta.value else 0;
    WidthsFit(spec.clusterCount, delta);
    UnsignedWidthIsLeast(spec.clusterCount, UnsignedWidthOf(spec.clusterCount));
    SignedWidthIsLeast(delta, SignedWidthOf(delta));
    Widths(UnsignedWidthOf(spec.clusterCount), DeltaWidth(spec))
  }

  function DeltaBytes(spec: RunSpec, width: nat): (r: seq<byte>)
    requires spec.lcnDelta.None? ==> width == 0
    ensures |r| == width
  {
    if spec.lcnDelta.Some? then Digits(ToUnsigned(spec.lcnDelta.value), width) else []
  }

  /** A run encoded with fields of these widths. */
  function RunBytes(spec: RunSpec, w: Widths): (r: seq<byte>)
    requires Hold(w, spec)
    ensures |r| == 1 + w.length + w.offset
  {
    [w.offset * 16 + w.length] + Digits(spec.clusterCount, w.length) + DeltaBytes(spec, w.offset)
  }

  function EncodedRun(spec: RunSpec): (r: seq<byte>)
    ensures |r| == 1 + UnsignedWidthOf(spec.clusterCount) + DeltaWidth(spec)
  {
    RunBytes(spec, LeastWidths(spec))
  }

  /** The runs in order, then the zero terminator. */
  function EncodedRuns(specs: seq<RunSpec>): (r: seq<byte>)
    ensures |r| > 0
  {
    if specs == [] then [0] else EncodedRun(specs[0]) + EncodedRuns(specs[1..])
  }

  method UnsignedWidth(v: uint64) returns (width: nat)
    ensures width == UnsignedWidthOf(v) <= 8
  {
    WidthsFit(v, 0);
    width := 1;
    while width < 8 && v / Pow2(width * 8) != 0
      invariant 1 <= width <= UnsignedWidthOf(v)
      decreases 8 - width
    {
      NonZeroQuotient(v, Pow2(8 * width));
      UnsignedWidthIsLeast(v, width);
      width := width + 1;
    }
    NonZeroQuotient(v, Pow2(8 * width));
    UnsignedWidthIsLeast(v, width);
  }

  lemma NonZeroQuotient(v: nat, d: nat)
    requires d > 0
    ensures v / d != 0 <==> v >= d
  {
    if v < d { DivModUnique(v, d, 0, v); }
  }

  method SignedWidth(v: sint64) returns (width: nat)
    ensures width == SignedWidthOf(v) <= 8
  {
    WidthsFit(0, v);
    width := 1;
    while width < 8
      invariant 1 <= width <= SignedWidthOf(v)
      decreases 8 - width
    {
      SignedWidthIsLeast(v, width);
      var minimum := 0 - Pow2(width * 8 - 1);
      var maximum := Pow2(width * 8 - 1) - 1;
      if minimum <= v <= maximum {
        return;
      }
      width := width + 1;
    }
  }

  method AppendDigits(prefix: seq<byte>, v: uint64, width: nat) returns (result: seq<byte>)
    ensures result == prefix + Digits(v, width)
  {
    result := prefix;
    var i := 0;
    while i < width
      invariant 0 <= i <= width
      invariant result == prefix + Digits(v, width)[..i]
    {
      DigitAt(v, width, i);
      result := result + [(v / Pow2(8 * i)) % 256];
      i := i + 1;
    }
    assert Digits(v, width)[..width] == Digits(v, width);
  }

  /** The body of the writing loop. */
  method EncodeRun(run: RunSpec) returns (result: seq<byte>)
    ensures result == EncodedRun(run)
  {
    var lengthWidth := UnsignedWidth(run.clusterCount);
    var offsetWidth := 0;
    if run.lcnDelta.Some? {
      offsetWidth := SignedWidth(run.lcnDelta.value);
    }
    var header := PackHeader(offsetWidth, lengthWidth);
    result := AppendDigits([header], run.clusterCount, lengthWidth);
    ghost var before := result;
    if run.lcnDelta.Some? {
      result := AppendDigits(result, ToUnsigned(run.lcnDelta.value), offsetWidth);
    }
    assert result == before + DeltaBytes(run, offsetWidth);
  }

  method EncodeRuns(runs: seq<RunSpec>) returns (result: seq<byte>)
    ensures result == EncodedRuns(runs)
  {
    result := [];
    for k := 0 to |runs|
      invariant EncodedRuns(runs) == result + EncodedRuns(runs[k..])
    {
      var encoded := EncodeRun(runs[k]);
      EncodedRunsStep(result, runs[k..]);
      assert runs[k..][1..] == runs[k + 1..];
      result := result + encoded;
    }
    result := result + [0];
  }

  lemma EncodedRunsStep(prefix: seq<byte>, runs: seq<RunSpec>)
    requires runs != []
    ensures prefix + EncodedRuns(runs) == prefix + EncodedRun(runs[0]) + EncodedRuns(runs[1..])
  {
    assert prefix + (EncodedRun(runs[0]) + EncodedRuns(runs[1..])) ==
      prefix + EncodedRun(runs[0]) + EncodedRuns(runs[1..]);
  }

  //
  // Reading back what was written
  //

  function PlacedBefore(run: Option<DataRun>, rest: Option<seq<DataRun>>): Option<seq<DataRun>> {
    if run.Some? then Prefixed([run.value], rest) else None
  }

  /** Where runs land when the previous one started at `lcn`; None when one would leave 0..2^63-1. */
  function Placed(specs: seq<RunSpec>, lcn: int): Option<seq<DataRun>> {
    if specs == [] then Some([])
    else
      var run := PlacedRun(specs[0], lcn);
      PlacedBefore(run, if run.Some? then Placed(specs[1..], NextLcn(lcn, run.value)) else None)
  }

  /** Truncating a signed number to a width that holds it loses nothing. */
  lemma TwosComplementOfTruncated(delta: sint64, width: nat)
    requires 1 <= width <= 8 && FitsSigned(delta, width)
    ensures TwosComplement(ToUnsigned(delta) % Pow2(8 * width), width) == delta
  {
    var m := Pow2(8 * width);
    assert m == 2 * Pow2(8 * width - 1);
    if delta >= 0 {
      DivModUnique(delta, m, 0, delta);
    } else {
      var q := Pow2(64 - 8 * width);
      ComplementaryPowers(8 * width);
      OneLess(q, m);
      DivModUnique(ToUnsigned(delta), m, q - 1, m + delta);
    }
  }

  /** The run that `spec` becomes after a run at `lcn`. */
  function PlacedRun(spec: RunSpec, lcn: int): Option<DataRun> {
    if spec.lcnDelta.None? then Some(DataRun(0, spec.clusterCount, true))
    else MovedRun(spec.clusterCount, spec.lcnDelta.value, lcn)
  }

  lemma WordOfDigits(bytes: seq<byte>, offset: nat, v: nat, n: nat)
    requires n <= 8 && v < Pow2(8 * n) && StandsAt(bytes, offset, Digits(v, n))
    ensures WordAt(bytes, offset, n) == v
  {
    ValueOfFittingDigits(bytes, offset, v, n);
  }

  lemma DeltaOfDigits(bytes: seq<byte>, offset: nat, delta: sint64, n: nat)
    requires 1 <= n <= 8 && FitsSigned(delta, n) && StandsAt(bytes, offset, Digits(ToUnsigned(delta), n))
    ensures TwosComplement(WordAt(bytes, offset, n), n) == delta
  {
    ValueOfDigits(bytes, offset, ToUnsigned(delta), n);
    TwosComplementOfTruncated(delta, n);
  }

  /** Headers with other widths are rejected, and so are fields that overrun the end. */
  lemma RunAtRejects(bytes: seq<byte>, offset: nat, end: nat, l: nat, d: nat, lcn: int)
    requires offset < end <= |bytes| && bytes[offset] % 16 == l && bytes[offset] / 16 == d
    requires l == 0 || l > 8 || d > 8 || offset + 1 + l + d > end
    ensures RunAt(bytes, offset, end, lcn) == None
  {
  }

  /** What `RunAt` makes of a header and its fields. */
  lemma RunAtFields(bytes: seq<byte>, offset: nat, end: nat, spec: RunSpec, l: nat, d: nat, lcn: int)
    requires 1 <= l <= 8 && d <= 8 && offset + 1 + l + d <= end <= |bytes|
    requires bytes[offset] % 16 == l && bytes[offset] / 16 == d
    requires WordAt(bytes, offset + 1, l) == spec.clusterCount
    requires spec.lcnDelta.None? <==> d == 0
    requires d > 0 ==> TwosComplement(WordAt(bytes, offset + 1 + l, d), d) == spec.lcnDelta.value
    ensures var run := PlacedRun(spec, lcn);
            RunAt(bytes, offset, end, lcn) == if run.Some? then Some((run.value, offset + 1 + l + d)) else None
  {
  }

  lemma BytesOfRun(bytes: seq<byte>, offset: nat, spec: RunSpec, w: Widths)
    requires Hold(w, spec) && StandsAt(bytes, offset, RunBytes(spec, w))
    ensures bytes[offset] == w.offset * 16 + w.length
    ensures StandsAt(bytes, offset + 1, Digits(spec.clusterCount, w.length))
    ensures StandsAt(bytes, offset + 1 + w.length, DeltaBytes(spec, w.offset))
  {
    var head, count := [w.offset * 16 + w.length], Digits(spec.clusterCount, w.length);
    StandsAtParts(bytes, offset, head + count, DeltaBytes(spec, w.offset));
    StandsAtParts(bytes, offset, head, count);
    StandsAtHead(bytes, offset, head);
  }

  lemma FieldsOfRun(bytes: seq<byte>, offset: nat, spec: RunSpec, w: Widths)
    requires Hold(w, spec) && StandsAt(bytes, offset, RunBytes(spec, w))
    ensures bytes[offset] % 16 == w.length && bytes[offset] / 16 == w.offset
    ensures WordAt(bytes, offset + 1, w.length) == spec.clusterCount
    ensures w.offset > 0 ==>
              TwosComplement(WordAt(bytes, offset + 1 + w.length, w.offset), w.offset) == spec.lcnDelta.value
  {
    BytesOfRun(bytes, offset, spec, w);
    DivModUnique(bytes[offset], 16, w.offset, w.length);
    WordOfDigits(bytes, offset + 1, spec.clusterCount, w.length);
    if w.offset > 0 {
      DeltaOfDigits(bytes, offset + 1 + w.length, spec.lcnDelta.value, w.offset);
    }
  }

  /** One encoded run reads back, with its distance added to the last position. */
  lemma RunAtEncoded(bytes: seq<byte>, offset: nat, end: nat, spec: RunSpec, w: Widths, lcn: int)
    requires Hold(w, spec) && StandsAt(bytes, offset, RunBytes(spec, w))
    requires offset + |RunBytes(spec, w)| <= end <= |bytes|
    ensures bytes[offset] != 0
    ensures var run := PlacedRun(spec, lcn);
            RunAt(bytes, offset, end, lcn) ==
            if run.Some? then Some((run.value, offset + |RunBytes(spec, w)|)) else None
  {
    FieldsOfRun(bytes, offset, spec, w);
    RunAtWidths(bytes, offset, end, spec, w, lcn);
  }

  lemma RunAtWidths(bytes: seq<byte>, offset: nat, end: nat, spec: RunSpec, w: Widths, lcn: int)
    requires Hold(w, spec) && offset + 1 + w.length + w.offset <= end <= |bytes|
    requires bytes[offset] % 16 == w.length && bytes[offset] / 16 == w.offset
    requires WordAt(bytes, offset + 1, w.length) == spec.clusterCount
    requires w.offset > 0 ==>
               TwosComplement(WordAt(bytes, offset + 1 + w.length, w.offset), w.offset) == spec.lcnDelta.value
    ensures bytes[offset] != 0
    ensures var run := PlacedRun(spec, lcn);
            RunAt(bytes, offset, end, lcn) ==
            if run.Some? then Some((run.value, offset + 1 + w.length + w.offset)) else None
  {
    RunAtFields(bytes, offset, end, spec, w.length, w.offset, lcn);
  }

  lemma ParseStep(bytes: seq<byte>, offset: nat, next: nat, end: nat, spec: RunSpec, lcn: int,
                  run: Option<DataRun>, rest: Option<seq<DataRun>>)
    requires offset < next <= end <= |bytes| && bytes[offset] != 0 && run == PlacedRun(spec, lcn)
    requires RunAt(bytes, offset, end, lcn) == if run.Some? then Some((run.value, next)) else None
    requires run.Some? ==> rest == ParsedRuns(bytes, next, end, NextLcn(lcn, run.value))
    ensures ParsedRuns(bytes, offset, end, lcn) == PlacedBefore(run, rest)
  {
  }

  //
  // Streams with fields of any width
  //

  predicate AllHold(ws: seq<Widths>, specs: seq<RunSpec>) {
    |ws| == |specs| && forall i :: 0 <= i < |specs| ==> Hold(ws[i], specs[i])
  }

  /** The runs with fields of these widths, then the zero terminator. */
  function Stream(specs: seq<RunSpec>, ws: seq<Widths>): (r: seq<byte>)
    requires AllHold(ws, specs)
    ensures |r| > 0
  {
    if specs == [] then [0] else RunBytes(specs[0], ws[0]) + Stream(specs[1..], ws[1..])
  }

  function AllLeast(specs: seq<RunSpec>): (ws: seq<Widths>)
    ensures AllHold(ws, specs)
  {
    seq(|specs|, i requires 0 <= i < |specs| => LeastWidths(specs[i]))
  }

  /** The encoder writes the stream with the least widths. */
  lemma {:induction false} EncodedIsStream(specs: seq<RunSpec>)
    ensures EncodedRuns(specs) == Stream(specs, AllLeast(specs))
  {
    if specs != [] {
      EncodedIsStream(specs[1..]);
      assert AllLeast(specs)[1..] == AllLeast(specs[1..]);
    }
  }

  /** The first run of a stream reads back, and the rest of the stream stands behind it. */
  lemma FirstOfStream(bytes: seq<byte>, offset: nat, end: nat, specs: seq<RunSpec>, ws: seq<Widths>, lcn: int)
    returns (next: nat)
    requires AllHold(ws, specs) && specs != [] && StandsAt(bytes, offset, Stream(specs, ws))
    requires offset + |Stream(specs, ws)| <= end <= |bytes|
    ensures AllHold(ws[1..], specs[1..]) && StandsAt(bytes, next, Stream(specs[1..], ws[1..]))
    ensures offset < next && next + |Stream(specs[1..], ws[1..])| <= end && bytes[offset] != 0
    ensures var run := PlacedRun(specs[0], lcn);
            RunAt(bytes, offset, end, lcn) == if run.Some? then Some((run.value, next)) else None
  {
    next := RunThenRest(bytes, offset, end, specs[0], ws[0], Stream(specs[1..], ws[1..]), lcn);
  }

  lemma RunThenRest(bytes: seq<byte>, offset: nat, end: nat, spec: RunSpec, w: Widths, rest: seq<byte>, lcn: int)
    returns (next: nat)
    requires Hold(w, spec) && StandsAt(bytes, offset, RunBytes(spec, w) + rest)
    requires offset + |RunBytes(spec, w) + rest| <= end <= |bytes|
    ensures StandsAt(bytes, next, rest) && offset < next && next + |rest| <= end && bytes[offset] != 0
    ensures var run := PlacedRun(spec, lcn);
            RunAt(bytes, offset, end, lcn) == if run.Some? then Some((run.value, next)) else None
  {
    next := offset + |RunBytes(spec, w)|;
    StandsAtParts(bytes, offset, RunBytes(spec, w), rest);
    RunAtEncoded(bytes, offset, end, spec, w, lcn);
  }

  /** A stream parses to the same runs wherever it stands in a record. */
  lemma {:induction false} ParseStream(bytes: seq<byte>, offset: nat, end: nat, specs: seq<RunSpec>, ws: seq<Widths>,
                                       lcn: int)
    requires AllHold(ws, specs) && StandsAt(bytes, offset, Stream(specs, ws))
    requires offset + |Stream(specs, ws)| <= end <= |bytes|
    ensures ParsedRuns(bytes, offset, end, lcn) == Placed(specs, lcn)
    decreases |specs|
  {
    if specs == [] {
      StandsAtHead(bytes, offset, [0]);
    } else {
      var next := FirstOfStream(bytes, offset, end, specs, ws, lcn);
      var run := PlacedRun(specs[0], lcn);
      if run.Some? {
        var moved := NextLcn(lcn, run.value);
        ParseStream(bytes, next, end, specs[1..], ws[1..], moved);
        ParseStep(bytes, offset, next, end, specs[0], lcn, run, ParsedRuns(bytes, next, end, moved));
      } else {
        ParseStep(bytes, offset, next, end, specs[0], lcn, run, None);
      }
    }
  }

  /** An encoded list parses to the same runs wherever it stands in a record. */
  lemma ParseEncoded(bytes: seq<byte>, offset: nat, end: nat, specs: seq<RunSpec>, lcn: int)
    requires StandsAt(bytes, offset, EncodedRuns(specs)) && offset + |EncodedRuns(specs)| <= end <= |bytes|
    ensures ParsedRuns(bytes, offset, end, lcn) == Placed(specs, lcn)
  {
    EncodedIsStream(specs);
    ParseStream(bytes, offset, end, specs, AllLeast(specs), lcn);
  }

  /** Sum of the first `k` distances; holes contribute nothing. */
  function PrefixSum(specs: seq<RunSpec>, k: nat): int
    requires k <= |specs|
  {
    if k == 0 then 0
    else PrefixSum(specs, k - 1) + if specs[k - 1].lcnDelta.Some? then specs[k - 1].lcnDelta.value else 0
  }

  ghost predicate SumsInRange(specs: seq<RunSpec>) {
    forall k :: 0 <= k <= |specs| ==> 0 <= PrefixSum(specs, k) <= INT64_MAX
  }

  /** `runs` are the lengths and holes of `specs`, each run at the running sum of the distances. */
  ghost predicate IsLayoutOf(runs: seq<DataRun>, specs: seq<RunSpec>) {
    && |runs| == |specs|
    && forall i :: 0 <= i < |specs| ==>
         && runs[i].clusterCount == specs[i].clusterCount
         && runs[i].sparse == specs[i].lcnDelta.None?
         && runs[i].lcn == if runs[i].sparse then 0 else PrefixSum(specs, i + 1)
  }

  lemma {:induction false} PrefixSumTail(specs: seq<RunSpec>, k: nat)
    requires 1 <= k <= |specs|
    ensures PrefixSum(specs, k) == PrefixSum(specs, 1) + PrefixSum(specs[1..], k - 1)
  {
    if k > 1 {
      PrefixSumTail(specs, k - 1);
      assert specs[k - 1] == specs[1..][k - 2];
    }
  }

  lemma {:induction false} PlacedExactly(specs: seq<RunSpec>, lcn: int)
    requires 0 <= lcn <= INT64_MAX && Placed(specs, lcn).Some?
    ensures var runs := Placed(specs, lcn).value;
            && |runs| == |specs|
            && (forall k :: 0 <= k <= |specs| ==> 0 <= lcn + PrefixSum(specs, k) <= INT64_MAX)
            && forall i :: 0 <= i < |specs| ==>
                 && runs[i].clusterCount == specs[i].clusterCount
                 && runs[i].sparse == specs[i].lcnDelta.None?
                 && runs[i].lcn == if runs[i].sparse then 0 else lcn + PrefixSum(specs, i + 1)
    decreases |specs|
  {
    if specs != [] {
      var moved := lcn + PrefixSum(specs, 1);
      assert PrefixSum(specs, 0) == 0;
      PlacedExactly(specs[1..], moved);
      forall k | 1 <= k <= |specs|
        ensures lcn + PrefixSum(specs, k) == moved + PrefixSum(specs[1..], k - 1)
      {
        PrefixSumTail(specs, k);
      }
    }
  }

  lemma {:induction false} PlacedWhenInRange(specs: seq<RunSpec>, lcn: int)
    requires forall k :: 0 <= k <= |specs| ==> 0 <= lcn + PrefixSum(specs, k) <= INT64_MAX
    ensures Placed(specs, lcn).Some?
    decreases |specs|
  {
    if specs != [] {
      var moved := lcn + PrefixSum(specs, 1);
      assert PrefixSum(specs, 0) == 0;
      forall k | 0 <= k <= |specs[1..]|
        ensures 0 <= moved + PrefixSum(specs[1..], k) <= INT64_MAX
      {
        PrefixSumTail(specs, k + 1);
        assert 0 <= lcn + PrefixSum(specs, k + 1) <= INT64_MAX;
      }
      PlacedWhenInRange(specs[1..], moved);
    }
  }

  lemma PlacedIff(specs: seq<RunSpec>)
    ensures Placed(specs, 0).Some? <==> SumsInRange(specs)
    ensures Placed(specs, 0).Some? ==> IsLayoutOf(Placed(specs, 0).value, specs)
  {
    if SumsInRange(specs) { PlacedWhenInRange(specs, 0); }
    if Placed(specs, 0).Some? { PlacedExactly(specs, 0); }
  }

  /** Main result: a list of runs reads back whatever widths its fields have, as long as they hold the numbers, exactly
      when no running sum overflows. */
  lemma AnyWidthsRoundTrip(specs: seq<RunSpec>, ws: seq<Widths>, before: seq<byte>, after: seq<byte>)
    requires AllHold(ws, specs)
    ensures var bytes := before + Stream(specs, ws) + after;
            var parsed := ParsedRuns(bytes, |before|, |bytes|, 0);
            && (parsed.Some? <==> SumsInRange(specs))
            && (parsed.Some? ==> IsLayoutOf(parsed.value, specs))
  {
    var bytes := before + Stream(specs, ws) + after;
    MiddleSlice(before, Stream(specs, ws), after);
    ParseStream(bytes, |before|, |bytes|, specs, ws, 0);
    PlacedIff(specs);
  }

  /** Main result: reading what was written gives the runs back exactly when no running sum overflows. */
  lemma DataRunRoundTrip(specs: seq<RunSpec>, before: seq<byte>, after: seq<byte>)
    ensures var bytes := before + EncodedRuns(specs) + after;
            var parsed := ParsedRuns(bytes, |before|, |bytes|, 0);
            && (parsed.Some? <==> SumsInRange(specs))
            && (parsed.Some? ==> IsLayoutOf(parsed.value, specs))
  {
    EncodedIsStream(specs);
    AnyWidthsRoundTrip(specs, AllLeast(specs), before, after);
  }

  //
  // Any accepted byte stream
  //

  /** Position of the terminator when the headers are followed from `offset`. */
  function TerminatorAt(bytes: seq<byte>, offset: nat): nat
    decreases |bytes| - offset
  {
    if offset >= |bytes| || bytes[offset] == 0 then offset
    else TerminatorAt(bytes, offset + 1 + bytes[offset] % 16 + bytes[offset] / 16)
  }

  /** A run the parser can produce: positions stay below 2^63 and holes have none. */
  predicate ValidRun(run: DataRun) {
    run.lcn <= INT64_MAX && (run.sparse ==> run.lcn == 0)
  }

  function DeltaOf(run: DataRun, lcn: int): RunSpec
    requires ValidRun(run) && 0 <= lcn <= INT64_MAX
  {
    RunSpec(run.clusterCount, if run.sparse then None else Some(run.lcn - lcn))
  }

  /** The distances between parsed runs. */
  function Deltas(runs: seq<DataRun>, lcn: int): seq<RunSpec>
    requires 0 <= lcn <= INT64_MAX && forall r :: r in runs ==> ValidRun(r)
  {
    if runs == [] then [] else [DeltaOf(runs[0], lcn)] + Deltas(runs[1..], NextLcn(lcn, runs[0]))
  }

  lemma {:induction false} AcceptedRunsAreValid(bytes: seq<byte>, offset: nat, end: nat, lcn: int)
    requires end <= |bytes| && ParsedRuns(bytes, offset, end, lcn).Some?
    ensures forall r :: r in ParsedRuns(bytes, offset, end, lcn).value ==> ValidRun(r)
    decreases end - offset
  {
    if bytes[offset] != 0 {
      var (run, next) := RunAt(bytes, offset, end, lcn).value;
      AcceptedRunsAreValid(bytes, next, end, NextLcn(lcn, run));
    }
  }

  lemma PlacedFirst(spec: RunSpec, specs: seq<RunSpec>, lcn: int, run: DataRun, rest: seq<DataRun>)
    requires PlacedRun(spec, lcn) == Some(run) && Placed(specs, NextLcn(lcn, run)) == Some(rest)
    ensures Placed([spec] + specs, lcn) == Some([run] + rest)
  {
    assert ([spec] + specs)[1..] == specs;
  }

  lemma DeltaPlacesBack(run: DataRun, lcn: int)
    requires 0 <= lcn <= INT64_MAX && ValidRun(run)
    ensures PlacedRun(DeltaOf(run, lcn), lcn) == Some(run)
    ensures 0 <= NextLcn(lcn, run) <= INT64_MAX
  {
  }

  lemma {:induction false} DeltasPlaceBack(runs: seq<DataRun>, lcn: int)
    requires 0 <= lcn <= INT64_MAX && forall r :: r in runs ==> ValidRun(r)
    ensures Placed(Deltas(runs, lcn), lcn) == Some(runs)
  {
    if runs != [] {
      var run, rest := runs[0], runs[1..];
      DeltaPlacesBack(run, lcn);
      var next := NextLcn(lcn, run);
      DeltasPlaceBack(rest, next);
      PlacedFirst(DeltaOf(run, lcn), Deltas(rest, next), lcn, run, rest);
      assert [run] + rest == runs;
    }
  }

  /** Main result: whatever widths a stream uses, its runs survive conversion to distances and re-encoding. */
  lemma ReencodingKeepsRuns(bytes: seq<byte>, offset: nat, end: nat)
    requires end <= |bytes| && ParsedRuns(bytes, offset, end, 0).Some?
    ensures var runs := ParsedRuns(bytes, offset, end, 0).value;
            && (forall r :: r in runs ==> ValidRun(r))
            && var again := EncodedRuns(Deltas(runs, 0));
               ParsedRuns(again, 0, |again|, 0) == Some(runs)
  {
    var runs := ParsedRuns(bytes, offset, end, 0).value;
    AcceptedRunsAreValid(bytes, offset, end, 0);
    DeltasPlaceBack(runs, 0);
    var again := EncodedRuns(Deltas(runs, 0));
    ParseEncoded(again, 0, |again|, Deltas(runs, 0), 0);
  }

  lemma SameBytesSameWord(bytes: seq<byte>, other: seq<byte>, at: nat, n: nat)
    requires n <= 8 && at + n <= |bytes| && at + n <= |other|
    requires forall k :: at <= k < at + n ==> other[k] == bytes[k]
    ensures WordAt(other, at, n) == WordAt(bytes, at, n)
  {
    SameBytesSameValue(other, at, bytes, at, n);
  }

  lemma RunAtSameBytes(bytes: seq<byte>, offset: nat, end: nat, lcn: int, other: seq<byte>, otherEnd: nat)
    requires offset < end <= |bytes| && RunAt(bytes, offset, end, lcn).Some?
    requires RunAt(bytes, offset, end, lcn).value.1 <= otherEnd <= |other|
    requires forall k :: offset <= k < RunAt(bytes, offset, end, lcn).value.1 ==> other[k] == bytes[k]
    ensures RunAt(other, offset, otherEnd, lcn) == RunAt(bytes, offset, end, lcn)
  {
    var l: nat, d: nat := bytes[offset] % 16, bytes[offset] / 16;
    assert RunAt(bytes, offset, end, lcn).value.1 == offset + 1 + l + d;
    assert other[offset] == bytes[offset];
    SameBytesSameWord(bytes, other, offset + 1, l);
    SameBytesSameWord(bytes, other, offset + 1 + l, d);
  }

  /** An accepted stream ends with a zero byte inside the buffer. */
  lemma {:induction false} TerminatorIsInside(bytes: seq<byte>, offset: nat, end: nat, lcn: int)
    requires end <= |bytes| && ParsedRuns(bytes, offset, end, lcn).Some?
    ensures offset <= TerminatorAt(bytes, offset) < end && bytes[TerminatorAt(bytes, offset)] == 0
    decreases end - offset
  {
    if bytes[offset] != 0 {
      var (run, next) := RunAt(bytes, offset, end, lcn).value;
      TerminatorIsInside(bytes, next, end, NextLcn(lcn, run));
    }
  }

  /** Main result: nothing after the terminator matters, not even where the buffer ends. */
  lemma {:induction false} BytesAfterTerminator(bytes: seq<byte>, offset: nat, end: nat, lcn: int,
                                                other: seq<byte>, otherEnd: nat)
    requires end <= |bytes| && ParsedRuns(bytes, offset, end, lcn).Some?
    requires TerminatorAt(bytes, offset) < otherEnd <= |other| && TerminatorAt(bytes, offset) < |bytes|
    requires forall k :: offset <= k <= TerminatorAt(bytes, offset) ==> other[k] == bytes[k]
    ensures ParsedRuns(other, offset, otherEnd, lcn) == ParsedRuns(bytes, offset, end, lcn)
    decreases end - offset
  {
    TerminatorIsInside(bytes, offset, end, lcn);
    if bytes[offset] != 0 {
      var (run, next) := RunAt(bytes, offset, end, lcn).value;
      TerminatorIsInside(bytes, next, end, NextLcn(lcn, run));
      BytesAfterTerminator(bytes, next, end, NextLcn(lcn, run), other, otherEnd);
      RunAtSameBytes(bytes, offset, end, lcn, other, otherEnd);
    }
  }

  /** Main result: a stream cut at or before its terminator is rejected, never misread. */
  lemma {:induction false} CutStreamIsRejected(bytes: seq<byte>, offset: nat, end: nat, lcn: int, cut: nat)
    requires end <= |bytes| && ParsedRuns(bytes, offset, end, lcn).Some?
    requires cut <= TerminatorAt(bytes, offset) && cut <= |bytes|
    ensures ParsedRuns(bytes[..cut], offset, cut, lcn).None?
    decreases end - offset
  {
    if offset < cut {
      var (run, next) := RunAt(bytes, offset, end, lcn).value;
      if next <= cut {
        RunAtSameBytes(bytes, offset, end, lcn, bytes[..cut], cut);
        CutStreamIsRejected(bytes, next, end, NextLcn(lcn, run), cut);
      }
    }
  }
}
