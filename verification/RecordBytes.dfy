/** What the parser reads from a record, said on the record's bytes. */
module RecordBytes {
  import opened LittleEndian
  import opened UpdateSequence

  //
  // Little-endian fields
  //

  function Octet(b: seq<byte>, at: nat): nat
    requires at < |b|
  {
    b[at]
  }

  function U16(b: seq<byte>, at: nat): nat
    requires at + 2 <= |b|
  {
    Octet(b, at) + 0x100 * Octet(b, at + 1)
  }

  function U32(b: seq<byte>, at: nat): nat
    requires at + 4 <= |b|
  {
    Octet(b, at) + 0x100 * Octet(b, at + 1) + 0x1_0000 * Octet(b, at + 2) + 0x100_0000 * Octet(b, at + 3)
  }

  /** The low six bytes of a file reference. */
  function U48(b: seq<byte>, at: nat): nat
    requires at + 6 <= |b|
  {
    U32(b, at) + 0x1_0000_0000 * Octet(b, at + 4) + 0x100_0000_0000 * Octet(b, at + 5)
  }

  function U64(b: seq<byte>, at: nat): nat
    requires at + 8 <= |b|
  {
    U48(b, at) + 0x1_0000_0000_0000 * Octet(b, at + 6) + 0x100_0000_0000_0000 * Octet(b, at + 7)
  }

  lemma WordsAreSums(b: seq<byte>, at: nat)
    ensures at + 2 <= |b| ==> Word16(b, at) == U16(b, at)
    ensures at + 4 <= |b| ==> Word32(b, at) == U32(b, at) && Word32(b, at) / 0x1000_0000 % 2 == b[at + 3] / 16 % 2
    ensures at + 8 <= |b| ==> Word64(b, at) == U64(b, at) && Word64(b, at) % 0x1_0000_0000_0000 == U48(b, at)
  {
    if at + 4 <= |b| {
      TopBits(Octet(b, at) + 0x100 * Octet(b, at + 1) + 0x1_0000 * Octet(b, at + 2), b[at + 3]);
    }
    if at + 8 <= |b| {
      LowSixBytes(U48(b, at), U16(b, at + 6));
    }
  }

  lemma TopBits(low: nat, top: nat)
    requires low < 0x100_0000
    ensures (low + 0x100_0000 * top) / 0x1000_0000 == top / 16
  {
  }

  lemma LowSixBytes(low: nat, high: nat)
    requires low < 0x1_0000_0000_0000
    ensures (low + 0x1_0000_0000_0000 * high) % 0x1_0000_0000_0000 == low
  {
  }

  lemma FlagBits(b: seq<byte>, at: nat)
    requires at + 2 <= |b|
    ensures Word16(b, at) % 2 == b[at] % 2 && Word16(b, at) / 2 % 2 == b[at] / 2 % 2
    ensures Word16(b, at) / 0x4000 % 2 == b[at + 1] / 64 % 2
  {
    LowBits(b[at], b[at + 1]);
    HighBit(b[at], b[at + 1]);
  }

  lemma LowBits(low: nat, high: nat)
    ensures (low + 0x100 * high) % 2 == low % 2
    ensures (low + 0x100 * high) / 2 % 2 == low / 2 % 2
  {
    Halved(low, 0x80 * high);
    Halved(low / 2, 0x40 * high);
  }

  lemma Halved(x: nat, m: nat)
    ensures (x + 2 * m) / 2 == x / 2 + m && (x + 2 * m) % 2 == x % 2
  {
  }

  lemma HighBit(low: nat, high: nat)
    requires low < 0x100
    ensures (low + 0x100 * high) / 0x4000 == high / 64
  {
  }

  //
  // Restoring the sector trailers
  //

  /** The header announces one entry per sector and one more, they lie in the record, and every sector ends in the
      first of them. */
  predicate IsIntact(b: seq<byte>) {
    && 8 <= |b|
    && var usa, count := U16(b, 4), U16(b, 6);
    && 2 <= count == |b| / 512 + 1 && usa + 2 * count <= |b|
    && forall k :: 0 <= k < |b| / 512 ==> SectorEndsIn(b, k, usa)
  }

  predicate SectorEndsIn(b: seq<byte>, k: nat, at: nat)
    requires 512 * k + 512 <= |b| && at + 2 <= |b|
  {
    b[512 * k + 510] == b[at] && b[512 * k + 511] == b[at + 1]
  }

  /** Where the byte that belongs at `i` is saved, when `i` is one of the last two of a sector. */
  function SavedPlace(usa: nat, i: nat): int {
    usa + 2 + 2 * (i / 512) + i % 512 - 510
  }

  /** Every sector's last two bytes come from the array, and the others stay. An entry that lies in the last bytes of an
      earlier sector has been replaced by the time it is read. */
  predicate IsRestoredFrom(r: seq<byte>, b: seq<byte>) {
    && |r| == |b| && IsIntact(b)
    && forall i :: 0 <= i < |b| ==> IsRestoredByte(r, b, i)
  }

  predicate IsRestoredByte(r: seq<byte>, b: seq<byte>, i: nat)
    requires |r| == |b| && 8 <= |b| && i < |b|
  {
    if i / 512 < |b| / 512 && i % 512 >= 510 then
      var p := SavedPlace(U16(b, 4), i);
      0 <= p < |b| && r[i] == if p / 512 < i / 512 && p % 512 >= 510 then r[p] else b[p]
    else r[i] == b[i]
  }

  lemma HeaderIff(b: seq<byte>)
    ensures HeaderMatches(b) <==>
            8 <= |b| && 2 <= U16(b, 6) == |b| / 512 + 1 && U16(b, 4) + 2 * U16(b, 6) <= |b|
    ensures 8 <= |b| ==> Word16(b, 4) == U16(b, 4)
  {
    WordsAreSums(b, 4);
    WordsAreSums(b, 6);
  }

  lemma IntactIffRestored(b: seq<byte>)
    ensures IsIntact(b) <==> Restored(b).ok
  {
    HeaderIff(b);
    RestoreSucceedsIff(b);
    if HeaderMatches(b) {
      var usa := U16(b, 4);
      forall k | 0 <= k < |b| / 512
        ensures Word16(b, Trailer(k)) == Word16(b, usa) <==> SectorEndsIn(b, k, usa)
      {
        SameWord(b, Trailer(k), usa);
      }
    }
  }

  lemma SameWord(b: seq<byte>, p: nat, q: nat)
    requires p + 2 <= |b| && q + 2 <= |b|
    ensures Word16(b, p) == Word16(b, q) <==> b[p] == b[q] && b[p + 1] == b[q + 1]
  {
  }

  /** The trailer of sector `k` after restoring the sectors from `sector` on. */
  lemma {:induction false} TrailersRestored(b: seq<byte>, usa: nat, sequence: nat, sector: nat, sectorCount: nat,
                                            k: nat, t: nat)
    requires UsaFits(b, usa, sectorCount) && t < 2
    requires RestoredFrom(b, usa, sequence, sector, sectorCount).ok && sector <= k < sectorCount
    ensures var r, p := RestoredFrom(b, usa, sequence, sector, sectorCount).bytes, SavedAt(usa, k) + t;
            r[Trailer(k) + t] == if sector <= p / 512 < k && p % 512 >= 510 then r[p] else b[p]
    decreases sectorCount - sector
  {
    var next, p := Unstamped(b, usa, sector), SavedAt(usa, k) + t;
    var r := RestoredFrom(b, usa, sequence, sector, sectorCount).bytes;
    if k == sector {
      RestoredFromFrame(next, usa, sequence, sector + 1, sectorCount, Trailer(k) + t);
    } else {
      TrailersRestored(next, usa, sequence, sector + 1, sectorCount, k, t);
      if p / 512 == sector && p % 512 >= 510 {
        RestoredFromFrame(next, usa, sequence, sector + 1, sectorCount, p);
      }
    }
  }

  lemma RestoredTrailerByte(b: seq<byte>, k: nat, t: nat)
    requires Restored(b).ok && k < |b| / 512 && t < 2
    ensures 8 <= |b| && SavedAt(U16(b, 4), k) + t < |b|
    ensures var r, p := Restored(b).bytes, SavedAt(U16(b, 4), k) + t;
            r[Trailer(k) + t] == if p / 512 < k && p % 512 >= 510 then r[p] else b[p]
  {
    HeaderIff(b);
    TrailersRestored(b, U16(b, 4), Word16(b, U16(b, 4)), 0, |b| / 512, k, t);
  }

  lemma RestoredByte(b: seq<byte>, i: nat)
    requires Restored(b).ok && i < |b|
    ensures IsRestoredByte(Restored(b).bytes, b, i)
  {
    var usa, n := Word16(b, 4), |b| / 512;
    if i / 512 < n && i % 512 >= 510 {
      RestoredTrailerByte(b, i / 512, i % 512 - 510);
      assert i == Trailer(i / 512) + (i % 512 - 510);
    } else {
      RestoreChangesOnlyTrailers(b, i);
    }
  }

  /** Main result: restoring gives these bytes, and no others, exactly for intact records. */
  lemma RestoredIff(b: seq<byte>, r: seq<byte>)
    ensures Restored(b) == Fixup(true, r) <==> IsRestoredFrom(r, b)
  {
    IntactIffRestored(b);
    if Restored(b).ok {
      forall i | 0 <= i < |b|
        ensures IsRestoredByte(Restored(b).bytes, b, i)
      {
        RestoredByte(b, i);
      }
      if IsRestoredFrom(r, b) {
        RestoredBytesUnique(b, r, Restored(b).bytes, |b|);
        assert r == Restored(b).bytes;
      }
    }
  }

  lemma {:induction false} RestoredBytesUnique(b: seq<byte>, r: seq<byte>, s: seq<byte>, n: nat)
    requires IsRestoredFrom(r, b) && IsRestoredFrom(s, b) && n <= |b|
    ensures forall i :: 0 <= i < n ==> r[i] == s[i]
  {
    if n > 0 {
      RestoredBytesUnique(b, r, s, n - 1);
      assert IsRestoredByte(r, b, n - 1) && IsRestoredByte(s, b, n - 1);
    }
  }
}
