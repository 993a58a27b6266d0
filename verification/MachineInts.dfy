/** The 64-bit integers of the source, and its overflow-checked operations.

    Every intermediate result of the checks themselves is stored in a 64-bit type, so that the verifier
    also establishes that the checks do not overflow. */
module MachineInts {
  import opened Options

  const INT64_MIN: int := -0x8000_0000_0000_0000
  const INT64_MAX: int := 0x7FFF_FFFF_FFFF_FFFF
  const UINT64_MAX: int := 0xFFFF_FFFF_FFFF_FFFF

  type uint64 = x: int | 0 <= x <= UINT64_MAX
  type sint64 = x: int | INT64_MIN <= x <= INT64_MAX witness 0

  /** Conversion of an unsigned word to a signed one, modulo 2^64. */
  function ToSigned(v: nat): sint64 {
    var w := v % 0x1_0000_0000_0000_0000;
    if w <= INT64_MAX then w else w - 0x1_0000_0000_0000_0000
  }

  /** Conversion of a signed word to an unsigned one, modulo 2^64. */
  function ToUnsigned(v: sint64): uint64 {
    if v >= 0 then v else v + 0x1_0000_0000_0000_0000
  }

  method CheckedAdd(lhs: sint64, rhs: sint64) returns (result: Option<sint64>)
    ensures result == if INT64_MIN <= lhs + rhs <= INT64_MAX then Some(lhs + rhs) else None
  {
    if rhs > 0 {
      var room: sint64 := INT64_MAX - rhs;
      if lhs > room { return None; }
    }
    if rhs < 0 {
      var room: sint64 := INT64_MIN - rhs;
      if lhs < room { return None; }
    }
    return Some(lhs + rhs);
  }

  /** None stands for the overflow exception. */
  method CheckedMul(lhs: uint64, rhs: uint64) returns (result: Option<uint64>)
    ensures result == if lhs * rhs <= UINT64_MAX then Some(lhs * rhs) else None
  {
    if rhs != 0 {
      QuotientBoundsProduct(lhs, rhs);
      if lhs > UINT64_MAX / rhs { return None; }
    }
    return Some(lhs * rhs);
  }

  lemma QuotientBoundsProduct(lhs: uint64, rhs: uint64)
    requires rhs != 0
    ensures lhs > UINT64_MAX / rhs <==> lhs * rhs > UINT64_MAX
  {
    var q, r := UINT64_MAX / rhs, UINT64_MAX % rhs;
    assert UINT64_MAX == q * rhs + r && 0 <= r < rhs;
    if lhs > q {
      assert lhs * rhs >= (q + 1) * rhs;
    } else {
      assert lhs * rhs <= q * rhs;
    }
  }
}
