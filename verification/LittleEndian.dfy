/** Bytes, and little-endian fields inside a record. */
module LittleEndian {
  import opened Options
  import opened Bits
  import opened Sequences

  type byte = b: int | 0 <= b < 256

  function Zeros(n: nat): (s: seq<byte>)
    ensures |s| == n && forall i :: 0 <= i < n ==> s[i] == 0
  {
    seq(n, _ => 0)
  }

  /** The number in the `n` bytes from `offset` on, least significant byte first. */
  function ValueAt(s: seq<byte>, offset: nat, n: nat): nat
    requires offset + n <= |s|
    decreases n
  {
    if n == 0 then 0 else s[offset] + 256 * ValueAt(s, offset + 1, n - 1)
  }

  /** The `n` low bytes of `v`, least significant byte first. */
  function Digits(v: nat, n: nat): (s: seq<byte>)
    ensures |s| == n
  {
    if n == 0 then [] else [v % 256] + Digits(v / 256, n - 1)
  }

  /** The field of `size` bytes at `offset`, or None when it does not lie inside `s`. */
  function Field(s: seq<byte>, offset: nat, size: nat): Option<nat> {
    if offset + size <= |s| then Some(ValueAt(s, offset, size)) else None
  }

  /** `s` with the bytes from `offset` on replaced by `d`. */
  function Put(s: seq<byte>, offset: nat, d: seq<byte>): (r: seq<byte>)
    requires offset + |d| <= |s|
    ensures |r| == |s|
  {
    s[..offset] + d + s[offset + |d|..]
  }

  lemma {:induction false} ValueBound(s: seq<byte>, offset: nat, n: nat)
    requires offset + n <= |s|
    ensures ValueAt(s, offset, n) < Pow2(8 * n)
    decreases n
  {
    if n > 0 {
      ValueBound(s, offset + 1, n - 1);
      Pow2NextByte(8 * (n - 1));
    }
  }

  lemma ScaledProduct(x: nat, y: nat)
    ensures 256 * (x * y) == x * (256 * y)
  {
  }

  lemma {:induction false} ValueWithLast(s: seq<byte>, offset: nat, n: nat)
    requires offset + n < |s|
    ensures ValueAt(s, offset, n + 1) == ValueAt(s, offset, n) + s[offset + n] * Pow2(8 * n)
    decreases n
  {
    if n > 0 {
      ValueWithLast(s, offset + 1, n - 1);
      Pow2NextByte(8 * (n - 1));
      ScaledProduct(s[offset + n], Pow2(8 * (n - 1)));
    } else {
      assert ValueAt(s, offset, 1) == s[offset] + 256 * ValueAt(s, offset + 1, 0);
    }
  }

  lemma {:induction false} SameBytesSameValue(s: seq<byte>, offset: nat, t: seq<byte>, offset': nat, n: nat)
    requires offset + n <= |s| && offset' + n <= |t|
    requires s[offset..offset + n] == t[offset'..offset' + n]
    ensures ValueAt(s, offset, n) == ValueAt(t, offset', n)
    decreases n
  {
    if n > 0 {
      assert s[offset] == s[offset..offset + n][0] == t[offset'..offset' + n][0] == t[offset'];
      assert s[offset + 1..offset + n] == s[offset..offset + n][1..];
      assert t[offset' + 1..offset' + n] == t[offset'..offset' + n][1..];
      SameBytesSameValue(s, offset + 1, t, offset' + 1, n - 1);
    }
  }

  /** Shifting by `n + 1` bytes is shifting by one and then by `n`. */
  lemma ShiftByte(v: nat, n: nat)
    ensures v / Pow2(8 * (n + 1)) == (v / 256) / Pow2(8 * n)
    ensures v % Pow2(8 * (n + 1)) == 256 * ((v / 256) % Pow2(8 * n)) + v % 256
  {
    Pow2NextByte(8 * n);
    var m := Pow2(8 * n);
    var q, r := (v / 256) / m, (v / 256) % m;
    assert v / 256 == q * m + r;
    ScaledProduct(q, m);
    DivModUnique(v, 256 * m, q, 256 * r + v % 256);
  }

  /** Writing a number and reading it back truncates it to the width of the field. */
  lemma {:induction false} ValueOfDigits(s: seq<byte>, offset: nat, v: nat, n: nat)
    requires StandsAt(s, offset, Digits(v, n))
    ensures ValueAt(s, offset, n) == v % Pow2(8 * n)
    decreases n
  {
    if n > 0 {
      StandsAtParts(s, offset, [v % 256], Digits(v / 256, n - 1));
      StandsAtHead(s, offset, [v % 256]);
      ValueOfDigits(s, offset + 1, v / 256, n - 1);
      ShiftByte(v, n - 1);
    }
  }

  lemma ValueOfFittingDigits(s: seq<byte>, offset: nat, v: nat, n: nat)
    requires StandsAt(s, offset, Digits(v, n)) && v < Pow2(8 * n)
    ensures ValueAt(s, offset, n) == v
  {
    ValueOfDigits(s, offset, v, n);
    DivModUnique(v, Pow2(8 * n), 0, v);
  }

  /** Every byte string is the little-endian form of its value. */
  lemma {:induction false} DigitsOfValue(s: seq<byte>, offset: nat, n: nat)
    requires offset + n <= |s|
    ensures Digits(ValueAt(s, offset, n), n) == s[offset..offset + n]
    decreases n
  {
    if n > 0 {
      DivModUnique(ValueAt(s, offset, n), 256, ValueAt(s, offset + 1, n - 1), s[offset]);
      DigitsOfValue(s, offset + 1, n - 1);
    }
  }

  lemma {:induction false} DigitAt(v: nat, n: nat, i: nat)
    requires i < n
    ensures Digits(v, n)[i] == (v / Pow2(8 * i)) % 256
  {
    if i > 0 {
      DigitAt(v / 256, n - 1, i - 1);
      ShiftByte(v, i - 1);
    }
  }

  lemma OrNextByte(value: nat, b: byte, n: nat)
    requires value < Pow2(8 * n)
    ensures BitOr(value, b * Pow2(8 * n)) == value + b * Pow2(8 * n)
  {
    OrIsSum(b, value, 8 * n);
    OrCommutes(value, b * Pow2(8 * n));
  }

  /** Assembles `n` bytes with shifts and `|`; the loop the source repeats for every field. */
  method Assemble(bytes: seq<byte>, offset: nat, n: nat) returns (value: nat)
    requires offset + n <= |bytes|
    ensures value == ValueAt(bytes, offset, n) < Pow2(8 * n)
  {
    value := 0;
    for i := 0 to n
      invariant value == ValueAt(bytes, offset, i)
    {
      ValueBound(bytes, offset, i);
      OrNextByte(value, bytes[offset + i], i);
      ValueWithLast(bytes, offset, i);
      value := BitOr(value, bytes[offset + i] * Pow2(8 * i));
    }
    ValueBound(bytes, offset, n);
  }

  method ReadLe(bytes: seq<byte>, offset: nat, size: nat) returns (r: Option<nat>)
    ensures r == Field(bytes, offset, size)
    ensures r.Some? ==> r.value < Pow2(8 * size)
  {
    if offset > |bytes| || size > |bytes| - offset {
      return None;
    }
    var value := Assemble(bytes, offset, size);
    return Some(value);
  }

  /** Writes an integer field in place; false stands for the source's out_of_range exception. */
  method PutLe(bytes: array<byte>, offset: nat, size: nat, value: nat) returns (ok: bool)
    modifies bytes
    ensures ok == (offset + size <= bytes.Length)
    ensures bytes[..] == if ok then Put(old(bytes[..]), offset, Digits(value, size)) else old(bytes[..])
  {
    if offset > bytes.Length || size > bytes.Length - offset {
      return false;
    }
    var i := 0;
    while i < size
      invariant 0 <= i <= size
      invariant forall k :: 0 <= k < i ==> bytes[offset + k] == Digits(value, size)[k]
      invariant forall k :: 0 <= k < bytes.Length && !(offset <= k < offset + i) ==> bytes[k] == old(bytes[k])
    {
      DigitAt(value, size, i);
      bytes[offset + i] := (value / Pow2(8 * i)) % 256;
      i := i + 1;
    }
    forall k | 0 <= k < bytes.Length
      ensures bytes[k] == Put(old(bytes[..]), offset, Digits(value, size))[k]
    {
      if offset <= k < offset + size { assert bytes[k] == bytes[offset + (k - offset)]; }
    }
    return true;
  }

  /** A field reads back what was written there. */
  lemma FieldOfPut(s: seq<byte>, offset: nat, v: nat, size: nat)
    requires offset + size <= |s| && v < Pow2(8 * size)
    ensures Field(Put(s, offset, Digits(v, size)), offset, size) == Some(v)
  {
    ValueOfFittingDigits(Put(s, offset, Digits(v, size)), offset, v, size);
  }

  //
  // Fields of the sizes that occur in records
  //

  function Word16(s: seq<byte>, offset: nat): (w: nat)
    requires offset + 2 <= |s|
    ensures w < 0x1_0000
  {
    var low: nat, high: nat := s[offset], s[offset + 1];
    low + 0x100 * high
  }

  function Word32(s: seq<byte>, offset: nat): (w: nat)
    requires offset + 4 <= |s|
    ensures w < 0x1_0000_0000
  {
    Word16(s, offset) + 0x1_0000 * Word16(s, offset + 2)
  }

  function Word64(s: seq<byte>, offset: nat): (w: nat)
    requires offset + 8 <= |s|
    ensures w < 0x1_0000_0000_0000_0000
  {
    Word32(s, offset) + 0x1_0000_0000 * Word32(s, offset + 4)
  }

  lemma Word16Value(s: seq<byte>, offset: nat)
    requires offset + 2 <= |s|
    ensures ValueAt(s, offset, 2) == Word16(s, offset)
  {
  }

  lemma Word32Value(s: seq<byte>, offset: nat)
    requires offset + 4 <= |s|
    ensures ValueAt(s, offset, 4) == Word32(s, offset)
  {
    Word16Value(s, offset + 2);
  }

  lemma Word64Value(s: seq<byte>, offset: nat)
    requires offset + 8 <= |s|
    ensures ValueAt(s, offset, 8) == Word64(s, offset)
  {
    Word32Value(s, offset + 4);
  }

  method ReadU16(bytes: seq<byte>, offset: nat) returns (r: Option<nat>)
    ensures r == if offset + 2 <= |bytes| then Some(Word16(bytes, offset)) else None
  {
    r := ReadLe(bytes, offset, 2);
    if offset + 2 <= |bytes| { Word16Value(bytes, offset); }
  }

  method ReadU32(bytes: seq<byte>, offset: nat) returns (r: Option<nat>)
    ensures r == if offset + 4 <= |bytes| then Some(Word32(bytes, offset)) else None
  {
    r := ReadLe(bytes, offset, 4);
    if offset + 4 <= |bytes| { Word32Value(bytes, offset); }
  }

  method ReadU64(bytes: seq<byte>, offset: nat) returns (r: Option<nat>)
    ensures r == if offset + 8 <= |bytes| then Some(Word64(bytes, offset)) else None
  {
    r := ReadLe(bytes, offset, 8);
    if offset + 8 <= |bytes| { Word64Value(bytes, offset); }
  }

  lemma Word16OfDigits(s: seq<byte>, offset: nat, v: nat)
    requires StandsAt(s, offset, Digits(v, 2)) && v < 0x1_0000
    ensures Word16(s, offset) == v
  {
    Pow2Of32();
    ValueOfFittingDigits(s, offset, v, 2);
    Word16Value(s, offset);
  }

  lemma Word32OfDigits(s: seq<byte>, offset: nat, v: nat)
    requires StandsAt(s, offset, Digits(v, 4)) && v < 0x1_0000_0000
    ensures Word32(s, offset) == v
  {
    Pow2Of32();
    ValueOfFittingDigits(s, offset, v, 4);
    Word32Value(s, offset);
  }

  lemma Word64OfDigits(s: seq<byte>, offset: nat, v: nat)
    requires StandsAt(s, offset, Digits(v, 8)) && v < 0x1_0000_0000_0000_0000
    ensures Word64(s, offset) == v
  {
    Pow2Of64();
    ValueOfFittingDigits(s, offset, v, 8);
    Word64Value(s, offset);
  }
}
