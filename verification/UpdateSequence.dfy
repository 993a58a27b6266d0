/** Update-sequence fixups: every sector's last two bytes are swapped with an array in the record header. */
module UpdateSequence {
  import opened Bits
  import opened LittleEndian

  const SECTOR_SIZE: nat := 512

  /** What a fixup pass leaves behind; on failure the sectors before the bad one are already rewritten. */
  datatype Fixup = Fixup(ok: bool, bytes: seq<byte>)

  /** Offset of the trailer of a sector. */
  function Trailer(sector: nat): nat {
    sector * 512 + 510
  }

  predicate InTrailer(i: nat, sectorCount: nat) {
    i / 512 < sectorCount && i % 512 >= 510
  }

  /** Offset of the saved trailer of a sector. */
  function SavedAt(usa: nat, sector: nat): nat {
    usa + 2 + 2 * sector
  }

  predicate UsaFits(b: seq<byte>, usa: nat, sectorCount: nat) {
    SavedAt(usa, sectorCount) <= |b| && sectorCount * 512 <= |b|
  }

  /** The array shares no byte with a trailer. */
  predicate UsaApart(usa: nat, sectorCount: nat) {
    forall i :: usa <= i < SavedAt(usa, sectorCount) ==> !InTrailer(i, sectorCount)
  }

  /** Two records agree on the word at `offset`. */
  predicate Word16At(r: seq<byte>, b: seq<byte>, offset: nat)
    requires offset + 2 <= |r| && offset + 2 <= |b|
  {
    r[offset] == b[offset] && r[offset + 1] == b[offset + 1]
  }

  function PutWord16(s: seq<byte>, offset: nat, low: byte, high: byte): (r: seq<byte>)
    requires offset + 2 <= |s|
    ensures |r| == |s|
  {
    s[offset := low][offset + 1 := high]
  }

  //
  // Restoring
  //

  /** One step of restoring. */
  function Unstamped(b: seq<byte>, usa: nat, sector: nat): (r: seq<byte>)
    requires SavedAt(usa, sector) + 2 <= |b| && Trailer(sector) + 2 <= |b|
    ensures |r| == |b|
  {
    var saved := SavedAt(usa, sector);
    PutWord16(b, Trailer(sector), b[saved], b[saved + 1])
  }

  /** Restores the trailers of the sectors from `sector` on, reading the array as it is by then. */
  function RestoredFrom(b: seq<byte>, usa: nat, sequence: nat, sector: nat, sectorCount: nat): (r: Fixup)
    requires UsaFits(b, usa, sectorCount)
    ensures |r.bytes| == |b|
    decreases sectorCount - sector
  {
    if sector >= sectorCount then Fixup(true, b)
    else if Word16(b, Trailer(sector)) != sequence then Fixup(false, b)
    else RestoredFrom(Unstamped(b, usa, sector), usa, sequence, sector + 1, sectorCount)
  }

  /** The header announces a fixup array that fits and has one entry per sector. */
  predicate HeaderMatches(b: seq<byte>) {
    && 8 <= |b|
    && var usa, count := Word16(b, 4), Word16(b, 6);
    && 2 <= count == |b| / 512 + 1
    && usa + 2 * count <= |b|
  }

  function Restored(b: seq<byte>): (r: Fixup)
    ensures |r.bytes| == |b|
  {
    if !HeaderMatches(b) then Fixup(false, b)
    else RestoredFrom(b, Word16(b, 4), Word16(b, Word16(b, 4)), 0, |b| / 512)
  }

  method LowByte(w: nat) returns (low: byte)
    ensures low == w % 256
  {
    Pow2Of32();
    AndLowMask(w, 8);
    return BitAnd(w, 0xFF);
  }

  /** Writes a word in place, as the source's two byte stores do. */
  method WriteWord(bytes: array<byte>, offset: nat, w: nat)
    requires offset + 2 <= bytes.Length && w < 0x1_0000
    modifies bytes
    ensures bytes[..] == PutWord16(old(bytes[..]), offset, w % 256, w / 256)
  {
    var low := LowByte(w);
    var high := LowByte(w / 256);
    bytes[offset] := low;
    bytes[offset + 1] := high;
  }

  lemma BytesOfWord(b: seq<byte>, offset: nat)
    requires offset + 2 <= |b|
    ensures Word16(b, offset) < 0x1_0000
    ensures Word16(b, offset) % 256 == b[offset] && Word16(b, offset) / 256 == b[offset + 1]
  {
    DivModUnique(Word16(b, offset), 256, b[offset + 1], b[offset]);
  }

  lemma UnstampedAsWord(b: seq<byte>, usa: nat, sector: nat)
    requires SavedAt(usa, sector) + 2 <= |b| && Trailer(sector) + 2 <= |b|
    ensures var w := Word16(b, SavedAt(usa, sector));
            Unstamped(b, usa, sector) == PutWord16(b, Trailer(sector), w % 256, w / 256)
  {
    BytesOfWord(b, SavedAt(usa, sector));
  }

  /** The body of the loop over sectors. */
  method RestoreSector(bytes: array<byte>, usa: nat, sequence: nat, sector: nat) returns (matched: bool)
    requires SavedAt(usa, sector) + 2 <= bytes.Length && Trailer(sector) + 2 <= bytes.Length
    modifies bytes
    ensures matched == (Word16(old(bytes[..]), Trailer(sector)) == sequence)
    ensures bytes[..] == if matched then Unstamped(old(bytes[..]), usa, sector) else old(bytes[..])
  {
    var trailerOffset := (sector + 1) * SECTOR_SIZE - 2;
    var current := ReadU16(bytes[..], trailerOffset);
    var replacement := ReadU16(bytes[..], usa + (sector + 1) * 2);
    if current.None? || replacement.None? || current.value != sequence {
      return false;
    }
    UnstampedAsWord(bytes[..], usa, sector);
    WriteWord(bytes, trailerOffset, replacement.value);
    return true;
  }

  method RestoreUsa(bytes: array<byte>) returns (ok: bool)
    modifies bytes
    ensures Fixup(ok, bytes[..]) == Restored(old(bytes[..]))
  {
    ghost var original := bytes[..];
    var usaOffset := ReadU16(bytes[..], 0x04);
    var usaCount := ReadU16(bytes[..], 0x06);
    if usaOffset.None? || usaCount.None? || usaCount.value < 2 {
      return false;
    }
    var usa := usaOffset.value;
    var usaBytes := usaCount.value * 2;
    if usa > bytes.Length || usaBytes > bytes.Length - usa {
      return false;
    }
    var sectorCount := bytes.Length / SECTOR_SIZE;
    if usaCount.value != sectorCount + 1 {
      return false;
    }
    var updateSequence := ReadU16(bytes[..], usa);
    if updateSequence.None? {
      return false;
    }
    var sector := 0;
    while sector < sectorCount
      invariant 0 <= sector <= sectorCount
      invariant Restored(original) == RestoredFrom(bytes[..], usa, updateSequence.value, sector, sectorCount)
    {
      var matched := RestoreSector(bytes, usa, updateSequence.value, sector);
      if !matched {
        return false;
      }
      sector := sector + 1;
    }
    return true;
  }

  /** Main result: a record is accepted exactly when its header matches and every trailer, as it was before the
      pass, holds the sequence number. This needs no assumption on where the array lies: a trailer is read before
      it is rewritten, even when it is itself part of the array. */
  lemma RestoreSucceedsIff(b: seq<byte>)
    ensures Restored(b).ok <==>
            && HeaderMatches(b)
            && forall k :: 0 <= k < |b| / 512 ==> Word16(b, Trailer(k)) == Word16(b, Word16(b, 4))
  {
    if HeaderMatches(b) {
      RestoredFromSucceedsIff(b, Word16(b, 4), Word16(b, Word16(b, 4)), 0, |b| / 512);
    }
  }

  lemma {:induction false} RestoredFromSucceedsIff(b: seq<byte>, usa: nat, sequence: nat, sector: nat, sectorCount: nat)
    requires UsaFits(b, usa, sectorCount)
    ensures RestoredFrom(b, usa, sequence, sector, sectorCount).ok <==>
            forall k :: sector <= k < sectorCount ==> Word16(b, Trailer(k)) == sequence
    decreases sectorCount - sector
  {
    if sector < sectorCount && Word16(b, Trailer(sector)) == sequence {
      var next := Unstamped(b, usa, sector);
      RestoredFromSucceedsIff(next, usa, sequence, sector + 1, sectorCount);
      assert forall k :: sector < k < sectorCount ==> Word16(next, Trailer(k)) == Word16(b, Trailer(k));
    }
  }

  /** Main result: the pass, successful or not, changes trailer bytes only. */
  lemma RestoreChangesOnlyTrailers(b: seq<byte>, i: nat)
    requires i < |b| && !InTrailer(i, |b| / 512)
    ensures Restored(b).bytes[i] == b[i]
  {
    if HeaderMatches(b) {
      RestoredFromFrame(b, Word16(b, 4), Word16(b, Word16(b, 4)), 0, |b| / 512, i);
    }
  }

  lemma {:induction false} RestoredFromFrame(b: seq<byte>, usa: nat, sequence: nat, sector: nat, sectorCount: nat,
                                             i: nat)
    requires UsaFits(b, usa, sectorCount) && i < |b|
    requires !InTrailer(i, sectorCount) || i / 512 < sector
    ensures RestoredFrom(b, usa, sequence, sector, sectorCount).bytes[i] == b[i]
    decreases sectorCount - sector
  {
    if sector < sectorCount && Word16(b, Trailer(sector)) == sequence {
      RestoredFromFrame(Unstamped(b, usa, sector), usa, sequence, sector + 1, sectorCount, i);
    }
  }

  lemma UnstampedKeepsArray(b: seq<byte>, usa: nat, sector: nat, sectorCount: nat, k: nat)
    requires UsaFits(b, usa, sectorCount) && UsaApart(usa, sectorCount) && sector < sectorCount && k < sectorCount
    ensures Word16At(Unstamped(b, usa, sector), b, SavedAt(usa, k))
  {
    TrailerOutsideArray(usa, sectorCount, sector);
    TrailerOutsideArray(usa, sectorCount, k);
  }

  /** When the array lies apart from the trailers, each trailer gets its saved bytes back. */
  lemma {:induction false} RestoredFromTrailers(b: seq<byte>, usa: nat, sequence: nat, sector: nat, sectorCount: nat,
                                                k: nat)
    requires UsaFits(b, usa, sectorCount) && UsaApart(usa, sectorCount)
    requires RestoredFrom(b, usa, sequence, sector, sectorCount).ok && sector <= k < sectorCount
    ensures var r := RestoredFrom(b, usa, sequence, sector, sectorCount).bytes;
            r[Trailer(k)] == b[SavedAt(usa, k)] && r[Trailer(k) + 1] == b[SavedAt(usa, k) + 1]
    decreases sectorCount - sector
  {
    var next := Unstamped(b, usa, sector);
    if k == sector {
      RestoredFromFrame(next, usa, sequence, sector + 1, sectorCount, Trailer(k));
      RestoredFromFrame(next, usa, sequence, sector + 1, sectorCount, Trailer(k) + 1);
    } else {
      UnstampedKeepsArray(b, usa, sector, sectorCount, k);
      RestoredFromTrailers(next, usa, sequence, sector + 1, sectorCount, k);
    }
  }

  //
  // Applying
  //

  /** One step of applying. */
  function Stamped(b: seq<byte>, usa: nat, low: byte, high: byte, sector: nat): (r: seq<byte>)
    requires SavedAt(usa, sector) + 2 <= |b| && Trailer(sector) + 2 <= |b|
    ensures |r| == |b|
  {
    var trailer := Trailer(sector);
    PutWord16(PutWord16(b, SavedAt(usa, sector), b[trailer], b[trailer + 1]), trailer, low, high)
  }

  /** Position `k` of `r` is stamped, and its former contents are in the array. */
  predicate StampedAt(r: seq<byte>, b: seq<byte>, usa: nat, low: byte, high: byte, k: nat)
    requires SavedAt(usa, k) + 2 <= |b| == |r| && Trailer(k) + 2 <= |b|
  {
    && r[Trailer(k)] == low && r[Trailer(k) + 1] == high
    && r[SavedAt(usa, k)] == b[Trailer(k)] && r[SavedAt(usa, k) + 1] == b[Trailer(k) + 1]
  }

  /** Saves the trailers of the sectors from `sector` on and stamps them with the sequence number. */
  function AppliedFrom(b: seq<byte>, usa: nat, low: byte, high: byte, sector: nat, sectorCount: nat): (r: seq<byte>)
    requires UsaFits(b, usa, sectorCount)
    ensures |r| == |b|
    decreases sectorCount - sector
  {
    if sector >= sectorCount then b
    else AppliedFrom(Stamped(b, usa, low, high, sector), usa, low, high, sector + 1, sectorCount)
  }

  /** The record as it is written to disk. */
  function Applied(b: seq<byte>, usa: nat, low: byte, high: byte, sectorCount: nat): (r: seq<byte>)
    requires UsaFits(b, usa, sectorCount)
    ensures |r| == |b|
  {
    AppliedFrom(PutWord16(b, usa, low, high), usa, low, high, 0, sectorCount)
  }

  lemma {:induction false} AppliedFromFrame(b: seq<byte>, usa: nat, low: byte, high: byte, sector: nat,
                                            sectorCount: nat, i: nat)
    requires UsaFits(b, usa, sectorCount) && i < |b|
    requires !(SavedAt(usa, sector) <= i < SavedAt(usa, sectorCount))
    requires !InTrailer(i, sectorCount) || i / 512 < sector
    ensures AppliedFrom(b, usa, low, high, sector, sectorCount)[i] == b[i]
    decreases sectorCount - sector
  {
    if sector < sectorCount {
      AppliedFromFrame(Stamped(b, usa, low, high, sector), usa, low, high, sector + 1, sectorCount, i);
    }
  }

  /** One step stamps its own sector and leaves the other trailers alone. */
  lemma StampedTrailers(b: seq<byte>, usa: nat, low: byte, high: byte, sector: nat, sectorCount: nat, k: nat)
    requires UsaFits(b, usa, sectorCount) && UsaApart(usa, sectorCount) && sector < sectorCount && k < sectorCount
    ensures k == sector ==> StampedAt(Stamped(b, usa, low, high, sector), b, usa, low, high, k)
    ensures k != sector ==> Word16At(Stamped(b, usa, low, high, sector), b, Trailer(k))
  {
    TrailerOutsideArray(usa, sectorCount, k);
    TrailerOutsideArray(usa, sectorCount, sector);
  }

  lemma {:induction false} AppliedFromTrailers(b: seq<byte>, usa: nat, low: byte, high: byte, sector: nat,
                                               sectorCount: nat, k: nat)
    requires UsaFits(b, usa, sectorCount) && UsaApart(usa, sectorCount) && sector <= k < sectorCount
    ensures StampedAt(AppliedFrom(b, usa, low, high, sector, sectorCount), b, usa, low, high, k)
    decreases sectorCount - sector
  {
    var next := Stamped(b, usa, low, high, sector);
    StampedTrailers(b, usa, low, high, sector, sectorCount, k);
    if k == sector {
      AppliedKeepsSector(next, usa, low, high, k, sectorCount);
    } else {
      AppliedFromTrailers(next, usa, low, high, sector + 1, sectorCount, k);
    }
  }

  lemma AppliedKeepsSector(b: seq<byte>, usa: nat, low: byte, high: byte, k: nat, sectorCount: nat)
    requires UsaFits(b, usa, sectorCount) && UsaApart(usa, sectorCount) && k < sectorCount
    ensures var r := AppliedFrom(b, usa, low, high, k + 1, sectorCount);
            Word16At(r, b, Trailer(k)) && Word16At(r, b, SavedAt(usa, k))
  {
    TrailerOutsideArray(usa, sectorCount, k);
    AppliedKeeps(b, usa, low, high, k + 1, sectorCount, Trailer(k));
    AppliedKeeps(b, usa, low, high, k + 1, sectorCount, SavedAt(usa, k));
  }

  lemma AppliedKeeps(b: seq<byte>, usa: nat, low: byte, high: byte, sector: nat, sectorCount: nat, i: nat)
    requires UsaFits(b, usa, sectorCount) && i + 1 < |b|
    requires i + 1 < SavedAt(usa, sector) || i >= SavedAt(usa, sectorCount)
    requires (!InTrailer(i, sectorCount) && !InTrailer(i + 1, sectorCount)) || (i + 1) / 512 < sector
    ensures var r := AppliedFrom(b, usa, low, high, sector, sectorCount);
            r[i] == b[i] && r[i + 1] == b[i + 1]
  {
    AppliedFromFrame(b, usa, low, high, sector, sectorCount, i);
    AppliedFromFrame(b, usa, low, high, sector, sectorCount, i + 1);
  }

  lemma TrailerOutsideArray(usa: nat, sectorCount: nat, k: nat)
    requires UsaApart(usa, sectorCount) && k < sectorCount
    ensures !(usa <= Trailer(k) < SavedAt(usa, sectorCount))
    ensures !(usa <= Trailer(k) + 1 < SavedAt(usa, sectorCount))
    ensures !InTrailer(SavedAt(usa, k), sectorCount) && !InTrailer(SavedAt(usa, k) + 1, sectorCount)
  {
    assert InTrailer(Trailer(k), sectorCount) && InTrailer(Trailer(k) + 1, sectorCount);
  }

  /** A record of whole sectors whose header describes an array apart from the header words and the trailers. */
  predicate Fixable(b: seq<byte>, usa: nat, sectorCount: nat) {
    && sectorCount >= 1 && |b| == sectorCount * 512
    && usa >= 8 && UsaFits(b, usa, sectorCount) && UsaApart(usa, sectorCount)
    && Word16(b, 4) == usa && Word16(b, 6) == sectorCount + 1
  }

  lemma AppliedHeader(b: seq<byte>, usa: nat, low: byte, high: byte, sectorCount: nat)
    requires Fixable(b, usa, sectorCount)
    ensures var a := Applied(b, usa, low, high, sectorCount);
            && HeaderMatches(a) && Word16(a, 4) == usa && Word16(a, usa) == low + 256 * high
  {
    var stamped := PutWord16(b, usa, low, high);
    assert !InTrailer(usa, sectorCount) && !InTrailer(usa + 1, sectorCount);
    AppliedKeeps(stamped, usa, low, high, 0, sectorCount, 4);
    AppliedKeeps(stamped, usa, low, high, 0, sectorCount, 6);
    AppliedKeeps(stamped, usa, low, high, 0, sectorCount, usa);
  }

  /** Main result: for any number of sectors, restoring undoes applying everywhere outside the array itself. */
  lemma RestoreUndoesApply(b: seq<byte>, usa: nat, low: byte, high: byte, sectorCount: nat)
    requires Fixable(b, usa, sectorCount)
    ensures var r := Restored(Applied(b, usa, low, high, sectorCount));
            && r.ok
            && forall i :: 0 <= i < |b| && !(usa <= i < SavedAt(usa, sectorCount)) ==> r.bytes[i] == b[i]
  {
    var a := Applied(b, usa, low, high, sectorCount);
    var stamped := PutWord16(b, usa, low, high);
    AppliedHeader(b, usa, low, high, sectorCount);
    forall k | 0 <= k < sectorCount
      ensures Word16(a, Trailer(k)) == low + 256 * high
      ensures a[SavedAt(usa, k)] == b[Trailer(k)] && a[SavedAt(usa, k) + 1] == b[Trailer(k) + 1]
    {
      AppliedFromTrailers(stamped, usa, low, high, 0, sectorCount, k);
      TrailerOutsideArray(usa, sectorCount, k);
    }
    RestoreSucceedsIff(a);
    var r := Restored(a).bytes;
    forall i | 0 <= i < |b| && !(usa <= i < SavedAt(usa, sectorCount))
      ensures r[i] == b[i]
    {
      if InTrailer(i, sectorCount) {
        var k := i / 512;
        assert i == Trailer(k) || i == Trailer(k) + 1;
        RestoredFromTrailers(a, usa, low + 256 * high, 0, sectorCount, k);
      } else {
        RestoreChangesOnlyTrailers(a, i);
        AppliedFromFrame(stamped, usa, low, high, 0, sectorCount, i);
      }
    }
  }

  /** Main result: any change to a stamped trailer makes the record rejected. */
  lemma AlteredTrailerIsDetected(b: seq<byte>, usa: nat, low: byte, high: byte, sectorCount: nat, altered: seq<byte>,
                                 at: nat)
    requires Fixable(b, usa, sectorCount) && |altered| == |b| && at < |b|
    requires forall i :: 0 <= i < |b| && !InTrailer(i, sectorCount) ==>
                           altered[i] == Applied(b, usa, low, high, sectorCount)[i]
    requires InTrailer(at, sectorCount) && altered[at] != Applied(b, usa, low, high, sectorCount)[at]
    ensures !Restored(altered).ok
  {
    var k := at / 512;
    assert at == Trailer(k) || at == Trailer(k) + 1;
    AppliedHeader(b, usa, low, high, sectorCount);
    AppliedFromTrailers(PutWord16(b, usa, low, high), usa, low, high, 0, sectorCount, k);
    assert !InTrailer(usa, sectorCount) && !InTrailer(usa + 1, sectorCount);
    assert Word16(altered, usa) == low + 256 * high;
    if Word16(altered, Trailer(k)) != low + 256 * high {
      RestoreSucceedsIff(altered);
    } else {
      DivModUnique(low + 256 * high, 256, high, low);
      BytesOfWord(altered, Trailer(k));
      assert false;
    }
  }
}
