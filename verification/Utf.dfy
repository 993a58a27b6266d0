/** UTF-16LE names to UTF-8.

    The conversion is checked against two standards: section 2 of RFC 2781 says what code points a sequence of
    16-bit units denotes, and sections 3 and 4 of RFC 3629 say which bytes are UTF-8 and what they denote. */
module Utf {
  import opened Options
  import opened Bits
  import opened Sequences
  import opened LittleEndian

  type codeUnit = u: int | 0 <= u < 0x1_0000

  const REPLACEMENT: int := 0xFFFD

  predicate IsHigh(u: int) { 0xD800 <= u <= 0xDBFF }

  predicate IsLow(u: int) { 0xDC00 <= u <= 0xDFFF }

  /** A Unicode code point that is not a surrogate. */
  type scalar = cp: int | 0 <= cp < 0xD800 || 0xE000 <= cp <= 0x10FFFF

  //
  // UTF-16: RFC 2781 section 2
  //

  function UnitAt(data: seq<byte>, i: nat): codeUnit
    requires 2 * i + 1 < |data|
  {
    var low: int, high: int := data[2 * i], data[2 * i + 1];
    low + 256 * high
  }

  /** The little-endian code units of a byte string; an odd last byte belongs to none. */
  function Units(data: seq<byte>): (units: seq<codeUnit>)
    ensures |units| == |data| / 2
  {
    seq(|data| / 2, i requires 0 <= i < |data| / 2 => UnitAt(data, i))
  }

  predicate PairAt(units: seq<codeUnit>, k: nat) {
    k + 1 < |units| && IsHigh(units[k]) && IsLow(units[k + 1])
  }

  /** The code point of the unit or pair at `k`; an unpaired surrogate stands for the replacement character. */
  function ScalarAt(units: seq<codeUnit>, k: nat): (cp: scalar)
    requires k < |units|
  {
    if PairAt(units, k) then 0x10000 + (units[k] - 0xD800) * 0x400 + (units[k + 1] - 0xDC00)
    else if IsHigh(units[k]) || IsLow(units[k]) then REPLACEMENT
    else units[k]
  }

  /** The code points that the units from `k` on denote. */
  function ScalarsFrom(units: seq<codeUnit>, k: nat): (cps: seq<scalar>)
    decreases |units| - k
  {
    if k >= |units| then []
    else [ScalarAt(units, k)] + ScalarsFrom(units, if PairAt(units, k) then k + 2 else k + 1)
  }

  function Utf16Of(cp: scalar): seq<codeUnit>
  {
    if cp < 0x10000 then [cp]
    else [0xD800 + (cp - 0x10000) / 0x400, 0xDC00 + (cp - 0x10000) % 0x400]
  }

  function Utf16Encode(cps: seq<scalar>): seq<codeUnit>
  {
    if cps == [] then [] else Utf16Of(cps[0]) + Utf16Encode(cps[1..])
  }

  /** Every surrogate is half of a pair. */
  predicate WellFormedFrom(units: seq<codeUnit>, k: nat)
    decreases |units| - k
  {
    if k >= |units| then true
    else if PairAt(units, k) then WellFormedFrom(units, k + 2)
    else !IsHigh(units[k]) && !IsLow(units[k]) && WellFormedFrom(units, k + 1)
  }

  function DropZeros(cps: seq<scalar>): seq<scalar> {
    if cps == [] then []
    else if cps[0] == 0 then DropZeros(cps[1..])
    else [cps[0]] + DropZeros(cps[1..])
  }

  //
  // UTF-8: RFC 3629 sections 3 and 4
  //

  predicate IsTail(b: byte) { 0x80 <= b <= 0xBF }

  /** Length of the well-formed character at the start of `s`, following the grammar of section 4; zero if none. */
  function CharLength(s: seq<byte>): (n: nat)
    ensures n <= |s| && n <= 4
  {
    if |s| >= 1 && s[0] <= 0x7F then 1
    else if |s| >= 2 && 0xC2 <= s[0] <= 0xDF && IsTail(s[1]) then 2
    else if |s| >= 3 && IsTail(s[2]) &&
            (|| (s[0] == 0xE0 && 0xA0 <= s[1] <= 0xBF)
             || (0xE1 <= s[0] <= 0xEC && IsTail(s[1]))
             || (s[0] == 0xED && 0x80 <= s[1] <= 0x9F)
             || (0xEE <= s[0] <= 0xEF && IsTail(s[1]))) then 3
    else if |s| >= 4 && IsTail(s[2]) && IsTail(s[3]) &&
            (|| (s[0] == 0xF0 && 0x90 <= s[1] <= 0xBF)
             || (0xF1 <= s[0] <= 0xF3 && IsTail(s[1]))
             || (s[0] == 0xF4 && 0x80 <= s[1] <= 0x8F)) then 4
    else 0
  }

  /** The low six bits of a tail byte. */
  function TailBits(b: byte): int {
    var v: int := b;
    v - 0x80
  }

  /** The code point of a character of `n` bytes, by the bit layout of section 3. */
  function CodePoint(s: seq<byte>, n: nat): scalar
    requires n == CharLength(s) && n != 0
  {
    var lead: int := s[0];
    if n == 1 then lead
    else if n == 2 then (lead - 0xC0) * 0x40 + TailBits(s[1])
    else if n == 3 then ((lead - 0xE0) * 0x40 + TailBits(s[1])) * 0x40 + TailBits(s[2])
    else (((lead - 0xF0) * 0x40 + TailBits(s[1])) * 0x40 + TailBits(s[2])) * 0x40 + TailBits(s[3])
  }

  function Prepend(cp: scalar, rest: Option<seq<scalar>>): Option<seq<scalar>> {
    if rest.Some? then Some([cp] + rest.value) else None
  }

  /** The code points of a byte string, or None when it is not well-formed UTF-8. */
  function Utf8Decode(s: seq<byte>): Option<seq<scalar>> {
    if s == [] then Some([])
    else
      var n := CharLength(s);
      if n == 0 then None else Prepend(CodePoint(s, n), Utf8Decode(s[n..]))
  }

  function Utf8Of(cp: scalar): (s: seq<byte>)
    ensures 1 <= |s| <= 4
  {
    var t0, r0 := cp / 0x40, cp % 0x40;
    var t1, r1 := t0 / 0x40, t0 % 0x40;
    var t2, r2 := t1 / 0x40, t1 % 0x40;
    if cp <= 0x7F then [cp]
    else if cp <= 0x7FF then [0xC0 + t0, 0x80 + r0]
    else if cp <= 0xFFFF then [0xE0 + t1, 0x80 + r1, 0x80 + r0]
    else [0xF0 + t2, 0x80 + r2, 0x80 + r1, 0x80 + r0]
  }

  function Utf8Encode(cps: seq<scalar>): seq<byte> {
    if cps == [] then [] else Utf8Of(cps[0]) + Utf8Encode(cps[1..])
  }

  /** The text of the units from `k` on: its scalars without NULs, in UTF-8. */
  function Utf8From(units: seq<codeUnit>, k: nat): seq<byte> {
    Utf8Encode(DropZeros(ScalarsFrom(units, k)))
  }

  /** The converted name. */
  function Utf8Name(data: seq<byte>): seq<byte> {
    Utf8From(Units(data), 0)
  }

  //
  // The conversion
  //

  method OrTag(tag: nat, payload: nat, bits: nat) returns (b: byte)
    requires tag == tag / Pow2(bits) * Pow2(bits) && payload < Pow2(bits) && tag + payload < 256
    ensures b == tag + payload
  {
    OrIsSum(tag / Pow2(bits), payload, bits);
    return BitOr(tag, payload);
  }

  method LowSix(x: nat) returns (low: nat)
    ensures low == x % 0x40
  {
    assert Pow2(6) == 64;
    AndLowMask(x, 6);
    return BitAnd(x, 0x3F);
  }

  method TailByte(x: nat) returns (b: byte)
    ensures b == 0x80 + x % 0x40
  {
    assert Pow2(6) == 64;
    var low := LowSix(x);
    b := OrTag(0x80, low, 6);
  }

  lemma ShiftsCompose(cp: nat)
    ensures cp / 0x1000 == cp / 0x40 / 0x40
    ensures cp / 0x40000 == cp / 0x40 / 0x40 / 0x40
  {
  }

  method AppendUtf8(out: seq<byte>, cp: scalar) returns (result: seq<byte>)
    ensures result == out + Utf8Of(cp)
  {
    ShiftsCompose(cp);
    if cp <= 0x7F {
      return out + [cp];
    } else if cp <= 0x7FF {
      assert Pow2(5) == 32;
      var lead := OrTag(0xC0, cp / 0x40, 5);
      var t0 := TailByte(cp);
      return out + [lead, t0];
    } else if cp <= 0xFFFF {
      assert Pow2(4) == 16;
      var lead := OrTag(0xE0, cp / 0x1000, 4);
      var t1 := TailByte(cp / 0x40);
      var t0 := TailByte(cp);
      return out + [lead, t1, t0];
    } else {
      assert Pow2(3) == 8;
      var lead := OrTag(0xF0, cp / 0x40000, 3);
      var t2 := TailByte(cp / 0x1000);
      var t1 := TailByte(cp / 0x40);
      var t0 := TailByte(cp);
      return out + [lead, t2, t1, t0];
    }
  }

  method ReadU16le(data: seq<byte>, i: nat) returns (unit: codeUnit)
    requires 2 * i + 1 < |data|
    ensures unit == UnitAt(data, i)
  {
    var low: nat, high: nat := data[2 * i], data[2 * i + 1];
    Pow2Of32();
    OrNextByte(low, high, 1);
    return BitOr(low, high * 0x100);
  }

  method CombinePair(high: codeUnit, low: codeUnit) returns (cp: int)
    requires IsHigh(high) && IsLow(low)
    ensures cp == 0x10000 + (high - 0xD800) * 0x400 + (low - 0xDC00)
  {
    assert Pow2(10) == 0x400;
    OrIsSum(high - 0xD800, low - 0xDC00, 10);
    return 0x10000 + BitOr((high - 0xD800) * 0x400, low - 0xDC00);
  }

  function NextUnit(units: seq<codeUnit>, k: nat): nat {
    if PairAt(units, k) then k + 2 else k + 1
  }

  /** What one step of the conversion contributes. */
  lemma Utf8Step(units: seq<codeUnit>, k: nat)
    requires k < |units|
    ensures var cp := ScalarAt(units, k);
            Utf8From(units, k) == (if cp == 0 then [] else Utf8Of(cp)) + Utf8From(units, NextUnit(units, k))
  {
    var cp := ScalarAt(units, k);
    assert ScalarsFrom(units, k)[1..] == ScalarsFrom(units, NextUnit(units, k));
    var dropped := DropZeros(ScalarsFrom(units, NextUnit(units, k)));
    if cp == 0 {
      assert [] + dropped == dropped;
    } else {
      assert ([cp] + dropped)[1..] == dropped;
    }
  }

  /** The loop body up to the append: the code point at offset `i`, and the offset the loop goes on from. */
  method ConvertAt(data: seq<byte>, i: nat) returns (cp: scalar, next: nat)
    requires i % 2 == 0 && i + 1 < |data|
    ensures cp == ScalarAt(Units(data), i / 2)
    ensures next % 2 == 0 && next / 2 == NextUnit(Units(data), i / 2) && i < next <= |data|
  {
    ghost var units := Units(data);
    var unit := ReadU16le(data, i / 2);
    assert unit == units[i / 2];
    next := i + 2;
    if 0xD800 <= unit <= 0xDBFF {
      if i + 3 < |data| {
        var low := ReadU16le(data, i / 2 + 1);
        assert low == units[i / 2 + 1];
        if 0xDC00 <= low <= 0xDFFF {
          cp := CombinePair(unit, low);
          next := i + 4;
        } else {
          cp := 0xFFFD;
        }
      } else {
        cp := 0xFFFD;
      }
    } else if 0xDC00 <= unit <= 0xDFFF {
      cp := 0xFFFD;
    } else {
      cp := unit;
    }
  }

  method Utf16leToUtf8(data: seq<byte>) returns (out: seq<byte>)
    ensures out == Utf8Name(data)
  {
    ghost var units := Units(data);
    out := [];
    var i := 0;
    NothingAdded(Utf8From(units, i / 2));
    while i + 1 < |data|
      invariant i % 2 == 0 && i <= |data|
      invariant Utf8Name(data) == out + Utf8From(units, i / 2)
      decreases |data| - i
    {
      var cp, next := ConvertAt(data, i);
      Utf8Step(units, i / 2);
      ghost var before := out;
      if cp != 0 {
        out := AppendUtf8(out, cp);
      }
      NothingAdded(before);
      Regroup(before, if cp == 0 then [] else Utf8Of(cp), Utf8From(units, next / 2));
      i := next;
    }
    NothingAfter(units, i / 2, out);
  }

  lemma NothingAfter(units: seq<codeUnit>, k: nat, out: seq<byte>)
    requires k >= |units|
    ensures out + Utf8From(units, k) == out
  {
  }

  //
  // Meaning
  //

  /** A character's bytes are recognised and give the code point back, whatever follows. */
  lemma CharOfScalar(cp: scalar, s: seq<byte>)
    requires Utf8Of(cp) <= s
    ensures CharLength(s) == |Utf8Of(cp)| && CodePoint(s, |Utf8Of(cp)|) == cp
  {
    var c := Utf8Of(cp);
    assert s[0] == c[0];
    if |c| >= 2 { assert s[1] == c[1]; }
    if |c| >= 3 { assert s[2] == c[2]; }
    if |c| >= 4 { assert s[3] == c[3]; }
  }

  /** Encoded text is well-formed and decodes to what was encoded. */
  lemma {:induction false} DecodeEncoded(cps: seq<scalar>)
    ensures Utf8Decode(Utf8Encode(cps)) == Some(cps)
  {
    if cps != [] {
      var rest := Utf8Encode(cps[1..]);
      CharOfScalar(cps[0], Utf8Of(cps[0]) + rest);
      assert (Utf8Of(cps[0]) + rest)[|Utf8Of(cps[0])|..] == rest;
      DecodeEncoded(cps[1..]);
      assert [cps[0]] + cps[1..] == cps;
    }
  }

  /** Main result: on every byte string the output is well-formed UTF-8, and it denotes exactly the input's
      UTF-16 code points, unpaired surrogates replaced and NULs dropped. */
  lemma ConversionKeepsMeaning(data: seq<byte>)
    ensures Utf8Decode(Utf8Name(data)) == Some(DropZeros(ScalarsFrom(Units(data), 0)))
  {
    DecodeEncoded(DropZeros(ScalarsFrom(Units(data), 0)));
  }

  /** Main result: how the text begins, by the first unit. A NUL is left out; a pair of surrogates stands for one code
      point; a surrogate without its partner becomes the replacement character, and the next unit is read on its own;
      every other unit is a code point. */
  lemma TextBegins(units: seq<codeUnit>, k: nat)
    requires k < |units|
    ensures var u: int, next: int := units[k], if k + 1 < |units| then units[k + 1] else 0;
            Utf8From(units, k) ==
            if u == 0 then Utf8From(units, k + 1)
            else if 0xD800 <= u < 0xDC00 && 0xDC00 <= next < 0xE000 then
              Utf8Of(0x10000 + (u - 0xD800) * 0x400 + (next - 0xDC00)) + Utf8From(units, k + 2)
            else if 0xD800 <= u < 0xE000 then [0xEF, 0xBF, 0xBD] + Utf8From(units, k + 1)
            else Utf8Of(u) + Utf8From(units, k + 1)
  {
    Utf8Step(units, k);
    ReplacementBytes();
    if units[k] == 0 {
      NothingAdded(Utf8From(units, k + 1));
    }
  }

  lemma ReplacementBytes()
    ensures Utf8Of(0xFFFD) == [0xEF, 0xBF, 0xBD]
  {
  }

  /** Main result: a converted name is the text from its first unit on, and ends with the last whole unit. */
  lemma TextOfUnits(data: seq<byte>, k: nat)
    ensures Utf8Name(data) == Utf8From(Units(data), 0) && (k >= |data| / 2 ==> Utf8From(Units(data), k) == [])
    ensures 2 * k + 1 < |data| ==>
              var low: nat, high: nat := data[2 * k], data[2 * k + 1]; Units(data)[k] == low + 256 * high
  {
  }

  lemma {:induction false} LengthFrom(units: seq<codeUnit>, k: nat)
    requires k <= |units|
    ensures |Utf8From(units, k)| <= 3 * (|units| - k)
    decreases |units| - k
  {
    if k < |units| {
      Utf8Step(units, k);
      LengthFrom(units, NextUnit(units, k));
    }
  }

  /** Main result: the output takes at most three bytes per code unit. */
  lemma ConversionLength(data: seq<byte>)
    ensures |Utf8Name(data)| <= 3 * (|data| / 2)
  {
    LengthFrom(Units(data), 0);
  }

  //
  // The inverse
  //

  /** Encoding code points as UTF-16 and reading them back changes nothing. */
  lemma {:induction false} ScalarsOfUtf16(before: seq<codeUnit>, cps: seq<scalar>)
    ensures ScalarsFrom(before + Utf16Encode(cps), |before|) == cps
    decreases |cps|
  {
    if cps != [] {
      var first, rest := Utf16Of(cps[0]), Utf16Encode(cps[1..]);
      Regroup(before, first, rest);
      ScalarOfUnits(before, cps[0], rest);
      ScalarsOfUtf16(before + first, cps[1..]);
      assert [cps[0]] + cps[1..] == cps;
    }
  }

  lemma ScalarOfUnits(before: seq<codeUnit>, cp: scalar, rest: seq<codeUnit>)
    ensures var units, k := before + Utf16Of(cp) + rest, |before|;
            k < |units| && ScalarAt(units, k) == cp && NextUnit(units, k) == |before + Utf16Of(cp)|
  {
    var units, first := before + Utf16Of(cp) + rest, Utf16Of(cp);
    assert units[|before|] == first[0];
    if |first| == 2 { assert units[|before| + 1] == first[1]; }
  }

  /** Well-formed UTF-16 is the encoding of its code points. */
  lemma {:induction false} Utf16OfScalars(units: seq<codeUnit>, k: nat)
    requires k <= |units| && WellFormedFrom(units, k)
    ensures Utf16Encode(ScalarsFrom(units, k)) == units[k..]
    decreases |units| - k
  {
    if k < |units| {
      var next := NextUnit(units, k);
      Utf16OfScalars(units, next);
      assert ScalarsFrom(units, k)[1..] == ScalarsFrom(units, next);
      assert Utf16Of(ScalarAt(units, k)) == units[k..next];
      assert units[k..next] + units[next..] == units[k..];
    }
  }

  lemma {:induction false} NothingToDrop(units: seq<codeUnit>, k: nat)
    requires forall i :: 0 <= i < |units| ==> units[i] != 0
    ensures DropZeros(ScalarsFrom(units, k)) == ScalarsFrom(units, k)
    decreases |units| - k
  {
    if k < |units| {
      NothingToDrop(units, NextUnit(units, k));
      assert ScalarsFrom(units, k)[1..] == ScalarsFrom(units, NextUnit(units, k));
    }
  }

  /** Well-formed UTF-16 without NULs. */
  ghost predicate CleanName(data: seq<byte>) {
    && WellFormedFrom(Units(data), 0)
    && forall i :: 0 <= i < |Units(data)| ==> Units(data)[i] != 0
  }

  /** Main result: on clean names decoding the output and encoding it as UTF-16 gives the code units back. */
  lemma ConversionHasInverse(data: seq<byte>)
    requires CleanName(data)
    ensures Utf8Decode(Utf8Name(data)).Some?
    ensures Utf16Encode(Utf8Decode(Utf8Name(data)).value) == Units(data)
  {
    ConversionKeepsMeaning(data);
    NothingToDrop(Units(data), 0);
    Utf16OfScalars(Units(data), 0);
    assert Units(data)[0..] == Units(data);
  }

  /** Main result: two clean names that convert to the same text are the same name. */
  lemma ConversionIsInjective(first: seq<byte>, second: seq<byte>)
    requires CleanName(first) && CleanName(second) && |first| % 2 == 0 && |second| % 2 == 0
    requires Utf8Name(first) == Utf8Name(second)
    ensures first == second
  {
    ConversionHasInverse(first);
    ConversionHasInverse(second);
    assert Units(first) == Units(second);
    forall i | 0 <= i < |first|
      ensures first[i] == second[i]
    {
      ByteOfUnit(first, second, i);
    }
  }

  lemma ByteOfUnit(first: seq<byte>, second: seq<byte>, i: nat)
    requires i < |first| && |first| % 2 == 0 && |second| % 2 == 0 && Units(first) == Units(second)
    ensures i < |second| && first[i] == second[i]
  {
    var k := i / 2;
    assert k < |Units(first)| == |Units(second)| && Units(first)[k] == Units(second)[k];
    UnitDeterminesBytes(first, second, k);
    if i % 2 == 0 {
      assert i == 2 * k;
    } else {
      assert i == 2 * k + 1;
    }
  }

  lemma UnitDeterminesBytes(first: seq<byte>, second: seq<byte>, k: nat)
    requires 2 * k + 1 < |first| && 2 * k + 1 < |second| && UnitAt(first, k) == UnitAt(second, k)
    ensures first[2 * k] == second[2 * k] && first[2 * k + 1] == second[2 * k + 1]
  {
    DivModUnique(UnitAt(first, k), 256, first[2 * k + 1], first[2 * k]);
    DivModUnique(UnitAt(second, k), 256, second[2 * k + 1], second[2 * k]);
  }
}
