/** Bit operations on unsigned machine words, modelled on natural numbers.

    The parser combines bytes with shifts, `|` and `&`. Here `x << k` is `x * Pow2(k)`, `x >> k` is
    `x / Pow2(k)`, and `|` and `&` are defined bit by bit. The lemmas turn them into sums and remainders,
    and the rest of the project reasons about those only. */
module Bits {
  function Pow2(n: nat): (p: nat)
    ensures p > 0
  {
    if n == 0 then 1 else 2 * Pow2(n - 1)
  }

  /** Bitwise or. */
  function BitOr(a: nat, b: nat): nat
    decreases a + b
  {
    if a == 0 && b == 0 then 0
    else 2 * BitOr(a / 2, b / 2) + if a % 2 == 1 || b % 2 == 1 then 1 else 0
  }

  /** Bitwise and. */
  function BitAnd(a: nat, b: nat): nat
    decreases a
  {
    if a == 0 || b == 0 then 0
    else 2 * BitAnd(a / 2, b / 2) + if a % 2 == 1 && b % 2 == 1 then 1 else 0
  }

  lemma Pow2NextByte(k: nat)
    ensures Pow2(k + 8) == 256 * Pow2(k)
  {
    assert Pow2(k + 8) == 2 * Pow2(k + 7);
    assert Pow2(k + 7) == 2 * Pow2(k + 6);
    assert Pow2(k + 6) == 2 * Pow2(k + 5);
    assert Pow2(k + 5) == 2 * Pow2(k + 4);
    assert Pow2(k + 4) == 2 * Pow2(k + 3);
    assert Pow2(k + 3) == 2 * Pow2(k + 2);
    assert Pow2(k + 2) == 2 * Pow2(k + 1);
  }

  lemma Pow2Of32()
    ensures Pow2(8) == 0x100 && Pow2(16) == 0x1_0000 && Pow2(32) == 0x1_0000_0000
  {
    Pow2NextByte(0);
    Pow2NextByte(8);
    Pow2NextByte(16);
    Pow2NextByte(24);
  }

  lemma Pow2Of64()
    ensures Pow2(48) == 0x1_0000_0000_0000
    ensures Pow2(63) == 0x8000_0000_0000_0000 && Pow2(64) == 0x1_0000_0000_0000_0000
  {
    Pow2Of32();
    Pow2NextByte(32);
    Pow2NextByte(40);
    Pow2NextByte(48);
    Pow2NextByte(56);
  }

  lemma TwiceTimes(x: nat, y: nat)
    ensures (2 * x) * y == 2 * (x * y)
  {
  }

  lemma {:induction false} Pow2Add(a: nat, b: nat)
    ensures Pow2(a + b) == Pow2(a) * Pow2(b)
  {
    if a > 0 {
      Pow2Add(a - 1, b);
      TwiceTimes(Pow2(a - 1), Pow2(b));
      assert Pow2(a + b) == 2 * Pow2(a - 1 + b);
    }
  }

  lemma {:induction false} Pow2Monotonic(a: nat, b: nat)
    requires a <= b
    ensures Pow2(a) <= Pow2(b)
    decreases b
  {
    if a < b { Pow2Monotonic(a, b - 1); }
  }

  lemma {:induction false} OrZero(a: nat)
    ensures BitOr(a, 0) == a
  {
    if a > 0 { OrZero(a / 2); }
  }

  /** Or-ing a shifted word with one that fits below the shift is their sum. */
  lemma {:induction false} OrIsSum(high: nat, low: nat, k: nat)
    requires low < Pow2(k)
    ensures BitOr(high * Pow2(k), low) == high * Pow2(k) + low
    decreases k
  {
    if k == 0 {
      OrZero(high);
    } else {
      var p := high * Pow2(k - 1);
      assert high * Pow2(k) == 2 * p;
      OrIsSum(high, low / 2, k - 1);
      assert (2 * p) / 2 == p && (2 * p) % 2 == 0;
    }
  }

  lemma {:induction false} OrCommutes(a: nat, b: nat)
    ensures BitOr(a, b) == BitOr(b, a)
    decreases a + b
  {
    if a > 0 || b > 0 { OrCommutes(a / 2, b / 2); }
  }

  lemma HalfModPow2(a: nat, k: nat)
    requires k > 0
    ensures a % Pow2(k) == 2 * ((a / 2) % Pow2(k - 1)) + a % 2
    ensures a / Pow2(k) == (a / 2) / Pow2(k - 1)
  {
    var m := Pow2(k - 1);
    var q, r := (a / 2) / m, (a / 2) % m;
    assert a / 2 == q * m + r;
    assert a == q * (2 * m) + (2 * r + a % 2);
    DivModUnique(a, 2 * m, q, 2 * r + a % 2);
  }

  lemma QuotientAtMost(d: int, q: int, r: int, q': int, r': int)
    requires 0 <= r < d && 0 <= r' < d && q * d + r == q' * d + r'
    ensures q <= q'
  {
    assert (q - q') * d == r' - r < d;
    if q - q' >= 1 { MultipleAtLeast(q - q', d); }
  }

  lemma MultipleAtLeast(x: int, d: int)
    requires x >= 1 && d >= 0
    ensures x * d >= d
  {
  }

  lemma OneLess(x: int, d: int)
    ensures (x - 1) * d == x * d - d
  {
  }

  lemma DivModUnique(a: int, d: int, q: int, r: int)
    requires d > 0 && 0 <= r < d && a == q * d + r
    ensures a / d == q && a % d == r
  {
    var q', r' := a / d, a % d;
    QuotientAtMost(d, q, r, q', r');
    QuotientAtMost(d, q', r', q, r);
  }

  /** Masking with 2^k - 1 keeps the remainder modulo 2^k. */
  lemma {:induction false} AndLowMask(a: nat, k: nat)
    ensures BitAnd(a, Pow2(k) - 1) == a % Pow2(k)
    decreases k
  {
    if k == 0 {
    } else {
      HalfModPow2(a, k);
      AndLowMask(a / 2, k - 1);
      var m := Pow2(k) - 1;
      assert m % 2 == 1 && m / 2 == Pow2(k - 1) - 1;
    }
  }

  /** Masking with the single bit 2^k tests that bit. */
  lemma {:induction false} AndSingleBit(a: nat, k: nat)
    ensures BitAnd(a, Pow2(k)) == if (a / Pow2(k)) % 2 == 1 then Pow2(k) else 0
    decreases k
  {
    if k == 0 {
      assert BitAnd(a / 2, 0) == 0;
    } else {
      HalfModPow2(a, k);
      AndSingleBit(a / 2, k - 1);
      var m := Pow2(k);
      assert m % 2 == 0 && m / 2 == Pow2(k - 1);
      if a < 2 { assert a / 2 == 0; assert 0 / Pow2(k - 1) == 0; }
    }
  }

  /** Clearing the low three bits rounds down to a multiple of eight. */
  lemma AndNotSeven(a: nat, n: nat)
    requires a < 8 * Pow2(n)
    ensures BitAnd(a, 8 * (Pow2(n) - 1)) == a / 8 * 8
  {
    var m := Pow2(n) - 1;
    AndTimesEight(a, m);
    AndLowMask(a / 8, n);
    DivModUnique(a / 8, Pow2(n), 0, a / 8);
  }

  lemma AndTimesEight(a: nat, m: nat)
    ensures BitAnd(a, 8 * m) == 8 * BitAnd(a / 8, m)
  {
    var a1, a2, a3 := a / 2, a / 4, a / 8;
    var and0, and1, and2 := BitAnd(a, 8 * m), BitAnd(a1, 4 * m), BitAnd(a2, 2 * m);
    assert and0 == 2 * and1 by { AndDoubledMask(a, a1, 4 * m, 8 * m); }
    assert and1 == 2 * and2 by { AndDoubledMask(a1, a2, 2 * m, 4 * m); }
    assert and2 == 2 * BitAnd(a3, m) by { AndDoubledMask(a2, a3, m, 2 * m); }
  }

  lemma AndDoubledMask(a: nat, half: nat, p: nat, mask: nat)
    requires half == a / 2 && mask == 2 * p
    ensures BitAnd(a, mask) == 2 * BitAnd(half, p)
  {
    assert mask / 2 == p && mask % 2 == 0;
  }
}
