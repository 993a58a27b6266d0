/** Copying the runs of a non-resident attribute from the device to the output file. */
module CopyRuns {
  import opened Sequences
  import opened LittleEndian
  import opened MachineInts
  import opened DataRuns
  import opened Devices
  import opened AtomicFiles

  //
  // The runs laid end to end
  //

  /** Where a byte of the data stands. */
  datatype Place = Hole | Stored(offset: nat) | Beyond

  function RunSize(run: DataRun, clusterSize: uint64): nat {
    run.clusterCount * clusterSize
  }

  function RunStart(run: DataRun, clusterSize: uint64): nat {
    run.lcn * clusterSize
  }

  function FlatSize(runs: seq<DataRun>, clusterSize: uint64): nat {
    if runs == [] then 0 else RunSize(runs[0], clusterSize) + FlatSize(runs[1..], clusterSize)
  }

  /** Where run `k` starts in the data. */
  function StartOf(runs: seq<DataRun>, clusterSize: uint64, k: nat): nat
    requires k <= |runs|
  {
    FlatSize(runs[..k], clusterSize)
  }

  function PlaceInRun(run: DataRun, clusterSize: uint64, i: nat): Place {
    if run.sparse then Hole else Stored(RunStart(run, clusterSize) + i)
  }

  /** The place of byte `i` of the runs laid end to end. */
  function PlaceAt(runs: seq<DataRun>, clusterSize: uint64, i: nat): Place {
    if runs == [] then Beyond
    else if i < RunSize(runs[0], clusterSize) then PlaceInRun(runs[0], clusterSize, i)
    else PlaceAt(runs[1..], clusterSize, i - RunSize(runs[0], clusterSize))
  }

  predicate PlaceReadable(d: Device, place: Place) {
    match place
    case Hole => true
    case Stored(offset) => offset < |d.bytes| && offset !in d.bad
    case Beyond => false
  }

  function ByteOf(d: Device, place: Place): byte
    requires PlaceReadable(d, place)
  {
    if place.Stored? then d.bytes[place.offset] else 0
  }

  /** The 64-bit products of this run overflow. */
  predicate Overflows(run: DataRun, clusterSize: uint64) {
    RunSize(run, clusterSize) > UINT64_MAX || (!run.sparse && RunStart(run, clusterSize) > UINT64_MAX)
  }

  //
  // The outcome of copying, run by run
  //

  datatype Outcome = Copied(bytes: seq<byte>) | Incomplete | Overflow

  function Min(a: nat, b: nat): nat {
    if a < b then a else b
  }

  /** What copying at most `n` bytes of one run gives. */
  function RunOutcome(d: Device, run: DataRun, clusterSize: uint64, n: nat): (o: Outcome)
    ensures o.Copied? ==> |o.bytes| == Min(n, RunSize(run, clusterSize))
  {
    var size, start := RunSize(run, clusterSize), RunStart(run, clusterSize);
    if Overflows(run, clusterSize) then Overflow
    else if run.sparse then Copied(Zeros(Min(n, size)))
    else if !Readable(d, start, Min(n, size)) then Incomplete
    else Copied(Range(d, start, Min(n, size)))
  }

  function Then(head: seq<byte>, rest: Outcome): Outcome {
    if rest.Copied? then Copied(head + rest.bytes) else rest
  }

  /** What copying `n` bytes of the runs gives. */
  function CopyOutcome(d: Device, runs: seq<DataRun>, clusterSize: uint64, n: nat): (o: Outcome)
    ensures o.Copied? ==> |o.bytes| == n
    decreases |runs|
  {
    if n == 0 then Copied([])
    else if runs == [] then Incomplete
    else
      var first := RunOutcome(d, runs[0], clusterSize, n);
      if first.Copied? then Then(first.bytes, CopyOutcome(d, runs[1..], clusterSize, n - |first.bytes|)) else first
  }

  //
  // Copying refines the flat view
  //

  /** Every byte before `n` has a place that can be read. */
  ghost predicate AllReadable(d: Device, runs: seq<DataRun>, clusterSize: uint64, n: nat) {
    forall i :: 0 <= i < n ==> PlaceReadable(d, PlaceAt(runs, clusterSize, i))
  }

  /** No run that starts before byte `n` overflows. */
  ghost predicate NoOverflow(runs: seq<DataRun>, clusterSize: uint64, n: nat) {
    forall k :: 0 <= k < |runs| && StartOf(runs, clusterSize, k) < n ==> !Overflows(runs[k], clusterSize)
  }

  /** Run `k` is reached before `n` bytes are copied, and is the first to overflow. */
  ghost predicate OverflowReached(d: Device, runs: seq<DataRun>, clusterSize: uint64, n: nat, k: nat) {
    && k < |runs| && StartOf(runs, clusterSize, k) < n && Overflows(runs[k], clusterSize)
    && (forall j :: 0 <= j < k ==> !Overflows(runs[j], clusterSize))
    && AllReadable(d, runs, clusterSize, StartOf(runs, clusterSize, k))
  }

  lemma StartOfNext(runs: seq<DataRun>, clusterSize: uint64, k: nat)
    requires runs != [] && k < |runs|
    ensures StartOf(runs, clusterSize, k + 1) == RunSize(runs[0], clusterSize) + StartOf(runs[1..], clusterSize, k)
  {
    assert runs[..k + 1][0] == runs[0] && runs[..k + 1][1..] == runs[1..][..k];
  }

  lemma StartOfFirst(runs: seq<DataRun>, clusterSize: uint64)
    ensures StartOf(runs, clusterSize, 0) == 0
  {
  }

  /** The part of the data that lies in the first run. */
  lemma FirstRunRefines(d: Device, run: DataRun, clusterSize: uint64, n: nat)
    requires !Overflows(run, clusterSize)
    ensures var m, o := Min(n, RunSize(run, clusterSize)), RunOutcome(d, run, clusterSize, n);
            && !o.Overflow?
            && (o.Copied? <==> forall i :: 0 <= i < m ==> PlaceReadable(d, PlaceInRun(run, clusterSize, i)))
            && (o.Copied? ==> forall i :: 0 <= i < m ==> o.bytes[i] == ByteOf(d, PlaceInRun(run, clusterSize, i)))
  {
    var m, start := Min(n, RunSize(run, clusterSize)), RunStart(run, clusterSize);
    if !run.sparse && m > 0 && forall i :: 0 <= i < m ==> PlaceReadable(d, PlaceInRun(run, clusterSize, i)) {
      forall j | start <= j < start + m
        ensures j < |d.bytes| && j !in d.bad
      {
        assert PlaceReadable(d, PlaceInRun(run, clusterSize, j - start));
      }
      assert PlaceReadable(d, PlaceInRun(run, clusterSize, m - 1));
    }
  }

  /** The first run's bytes come first, then those of the other runs. */
  lemma ReadableSplits(d: Device, runs: seq<DataRun>, clusterSize: uint64, n: nat)
    requires runs != []
    ensures var size := RunSize(runs[0], clusterSize);
            AllReadable(d, runs, clusterSize, n) <==>
              && (forall i :: 0 <= i < Min(n, size) ==> PlaceReadable(d, PlaceInRun(runs[0], clusterSize, i)))
              && AllReadable(d, runs[1..], clusterSize, n - Min(n, size))
  {
    var size := RunSize(runs[0], clusterSize);
    if AllReadable(d, runs, clusterSize, n) {
      forall i | 0 <= i < Min(n, size)
        ensures PlaceReadable(d, PlaceInRun(runs[0], clusterSize, i))
      {
        assert PlaceReadable(d, PlaceAt(runs, clusterSize, i));
      }
      forall i | 0 <= i < n - Min(n, size)
        ensures PlaceReadable(d, PlaceAt(runs[1..], clusterSize, i))
      {
        assert PlaceReadable(d, PlaceAt(runs, clusterSize, i + size));
      }
    } else {
      var i :| 0 <= i < n && !PlaceReadable(d, PlaceAt(runs, clusterSize, i));
      assert i >= size ==> !PlaceReadable(d, PlaceAt(runs[1..], clusterSize, i - size));
    }
  }

  lemma NoOverflowSplits(runs: seq<DataRun>, clusterSize: uint64, n: nat)
    requires runs != [] && n > 0
    ensures NoOverflow(runs, clusterSize, n) <==>
            !Overflows(runs[0], clusterSize)
            && NoOverflow(runs[1..], clusterSize, n - Min(n, RunSize(runs[0], clusterSize)))
  {
    StartOfFirst(runs, clusterSize);
    var rest, m := runs[1..], n - Min(n, RunSize(runs[0], clusterSize));
    forall k | 0 <= k < |rest|
      ensures StartOf(rest, clusterSize, k) < m <==> StartOf(runs, clusterSize, k + 1) < n
    {
      StartOfNext(runs, clusterSize, k);
    }
    if NoOverflow(runs, clusterSize, n) {
      forall k | 0 <= k < |rest| && StartOf(rest, clusterSize, k) < m
        ensures !Overflows(rest[k], clusterSize)
      {
        assert StartOf(runs, clusterSize, k + 1) < n;
        assert runs[k + 1] == rest[k];
      }
    }
    if !Overflows(runs[0], clusterSize) && NoOverflow(rest, clusterSize, m) {
      forall k | 0 <= k < |runs| && StartOf(runs, clusterSize, k) < n
        ensures !Overflows(runs[k], clusterSize)
      {
        if k > 0 {
          assert StartOf(rest, clusterSize, k - 1) < m;
          assert runs[k] == rest[k - 1];
        }
      }
    }
  }

  /** Main result: copying succeeds exactly when the runs cover the length, every needed byte can be read and no
      reached run overflows; and then byte `i` of the copy is byte `i` of the runs laid end to end. */
  lemma {:induction false} CopyRefinesFlatView(d: Device, runs: seq<DataRun>, clusterSize: uint64, n: nat)
    ensures var o := CopyOutcome(d, runs, clusterSize, n);
            && (o.Copied? <==> n <= FlatSize(runs, clusterSize) && NoOverflow(runs, clusterSize, n)
                               && AllReadable(d, runs, clusterSize, n))
            && (o.Copied? ==>
                  forall i :: 0 <= i < n ==> PlaceReadable(d, PlaceAt(runs, clusterSize, i))
                                             && o.bytes[i] == ByteOf(d, PlaceAt(runs, clusterSize, i)))
    decreases |runs|
  {
    if n > 0 && runs != [] {
      var size := RunSize(runs[0], clusterSize);
      var m := n - Min(n, size);
      CopyRefinesFlatView(d, runs[1..], clusterSize, m);
      ReadableSplits(d, runs, clusterSize, n);
      NoOverflowSplits(runs, clusterSize, n);
      if !Overflows(runs[0], clusterSize) {
        FirstRunRefines(d, runs[0], clusterSize, n);
      }
    }
  }

  /** Main result: copying throws exactly when a run is reached that overflows. */
  lemma {:induction false} CopyOverflowsIff(d: Device, runs: seq<DataRun>, clusterSize: uint64, n: nat)
    ensures CopyOutcome(d, runs, clusterSize, n).Overflow? <==>
      exists k: nat :: OverflowReached(d, runs, clusterSize, n, k)
    decreases |runs|
  {
    if n > 0 && runs != [] {
      var size := RunSize(runs[0], clusterSize);
      var rest, m := runs[1..], n - Min(n, size);
      StartOfFirst(runs, clusterSize);
      if Overflows(runs[0], clusterSize) {
        assert OverflowReached(d, runs, clusterSize, n, 0);
      } else {
        FirstRunRefines(d, runs[0], clusterSize, n);
        CopyOverflowsIff(d, rest, clusterSize, m);
        if k: nat :| OverflowReached(d, runs, clusterSize, n, k) {
          ReachedInRest(d, runs, clusterSize, n, k - 1);
        }
        if k: nat :| OverflowReached(d, rest, clusterSize, m, k) && RunOutcome(d, runs[0], clusterSize, n).Copied? {
          ReachedInRest(d, runs, clusterSize, n, k);
        }
      }
    }
  }

  lemma ReachedInRest(d: Device, runs: seq<DataRun>, clusterSize: uint64, n: nat, k: nat)
    requires runs != [] && n > 0 && !Overflows(runs[0], clusterSize)
    ensures OverflowReached(d, runs, clusterSize, n, k + 1) <==>
            && RunOutcome(d, runs[0], clusterSize, n).Copied?
            && OverflowReached(d, runs[1..], clusterSize, n - Min(n, RunSize(runs[0], clusterSize)), k)
  {
    var rest, size := runs[1..], RunSize(runs[0], clusterSize);
    if k < |rest| {
      StartOfNext(runs, clusterSize, k);
      FirstRunRefines(d, runs[0], clusterSize, n);
      ReadableSplits(d, runs, clusterSize, StartOf(runs, clusterSize, k + 1));
      assert runs[k + 1] == rest[k];
      assert (forall j :: 0 <= j < k ==> !Overflows(rest[j], clusterSize)) ==>
               forall j :: 0 <= j < k + 1 ==> !Overflows(runs[j], clusterSize) by {
        forall j | 0 <= j < k + 1 && forall i :: 0 <= i < k ==> !Overflows(rest[i], clusterSize)
          ensures !Overflows(runs[j], clusterSize)
        {
          assert j > 0 ==> runs[j] == rest[j - 1];
        }
      }
    }
  }

  //
  // The source's procedures
  //

  const CHUNK: nat := 1024 * 1024

  datatype CopyResult = Done | NotDone | Thrown

  /** False stands for the exception of a failed write. */
  method WriteZeros(out: AtomicFile, size: uint64) returns (ok: bool)
    requires out.Valid() && out.fdOpen
    modifies out.fs, out`content
    ensures out.Valid() && out.fdOpen
    ensures ok ==> out.content == old(out.content) + Zeros(size)
    ensures out.fs.quiet ==> ok
  {
    var zeros := Zeros(CHUNK);
    var rest: uint64 := size;
    while rest > 0
      invariant 0 <= rest <= size
      invariant out.Valid() && out.fdOpen && out.content == old(out.content) + Zeros(size - rest)
    {
      var chunk := Min(rest, |zeros|);
      ok := out.Write(zeros[..chunk]);
      if !ok {
        return;
      }
      assert Zeros(size - rest) + zeros[..chunk] == Zeros(size - rest + chunk);
      rest := rest - chunk;
    }
    return true;
  }

  /** One chunk of the inner loop: read it whole, then write it. */
  method CopyChunk(source: Source, offset: uint64, chunk: nat, out: AtomicFile, buffer: array<byte>)
    returns (r: CopyResult)
    requires out.Valid() && out.fdOpen && chunk <= buffer.Length
    modifies source`interruptions, buffer, out.fs, out`content
    ensures out.Valid() && out.fdOpen
    ensures r.Done? ==> Readable(source.device, offset, chunk)
                        && out.content == old(out.content) + Range(source.device, offset, chunk)
    ensures r.NotDone? ==> !Readable(source.device, offset, chunk)
    ensures r.Thrown? ==> !out.fs.quiet
  {
    var readable := ReadExactAt(source, buffer, chunk, offset);
    if !readable {
      return NotDone;
    }
    var written := out.Write(buffer[..chunk]);
    return if written then Done else Thrown;
  }

  /** The inner loop of the copy: one stored run, a chunk at a time. */
  method CopyStored(source: Source, offset: uint64, size: uint64, out: AtomicFile, buffer: array<byte>)
    returns (r: CopyResult)
    requires out.Valid() && out.fdOpen && 0 < buffer.Length
    modifies source`interruptions, buffer, out.fs, out`content
    ensures out.Valid() && out.fdOpen
    ensures r.Done? ==> Readable(source.device, offset, size)
                        && out.content == old(out.content) + Range(source.device, offset, size)
    ensures r.NotDone? ==> !Readable(source.device, offset, size)
    ensures r.Thrown? ==> !out.fs.quiet
  {
    var sourceOffset: uint64 := offset;
    var rest: uint64 := size;
    ghost var d, done := source.device, 0;
    NothingAdded(out.content);
    while rest > 0
      invariant 0 <= rest <= size && done == size - rest && sourceOffset == offset + done
      invariant out.Valid() && out.fdOpen
      invariant Readable(d, offset, done) && out.content == old(out.content) + Range(d, offset, done)
    {
      var chunk := Min(rest, buffer.Length);
      ChunkAppends(old(out.content), d, offset, done, chunk, size);
      ghost var before := out.content;
      r := CopyChunk(source, sourceOffset, chunk, out, buffer);
      if !r.Done? {
        return;
      }
      assert out.content == before + Range(d, offset + done, chunk);
      done := done + chunk;
      sourceOffset := sourceOffset + chunk;
      rest := rest - chunk;
    }
    return Done;
  }

  /** One more chunk of a range: it can be read if the whole range can, and its bytes come next. */
  lemma ChunkAppends(base: seq<byte>, d: Device, offset: nat, done: nat, chunk: nat, size: nat)
    requires Readable(d, offset, done) && done + chunk <= size
    ensures Readable(d, offset, size) ==> Readable(d, offset + done, chunk)
    ensures Readable(d, offset + done, chunk) ==>
              && Readable(d, offset, done + chunk)
              && base + Range(d, offset, done) + Range(d, offset + done, chunk) == base + Range(d, offset, done + chunk)
  {
    RangeJoins(d, offset, done, chunk);
    if Readable(d, offset + done, chunk) {
      Regroup(base, Range(d, offset, done), Range(d, offset + done, chunk));
    }
  }

  /** One run of the loop of `CopyNonresident`. */
  method CopyRun(source: Source, run: DataRun, clusterSize: uint64, remaining: uint64, out: AtomicFile,
                 buffer: array<byte>)
    returns (r: CopyResult, rest: uint64)
    requires out.Valid() && out.fdOpen && 0 < buffer.Length
    modifies source`interruptions, buffer, out.fs, out`content
    ensures out.Valid() && out.fdOpen
    ensures var o := RunOutcome(source.device, run, clusterSize, remaining);
            && (r.Done? ==> o.Copied? && out.content == old(out.content) + o.bytes && rest == remaining - |o.bytes|)
            && (r.NotDone? ==> o.Incomplete?)
            && (r.Thrown? ==> o.Overflow? || !out.fs.quiet)
  {
    rest := remaining;
    var runBytes := CheckedMul(run.clusterCount, clusterSize);
    if runBytes.None? {
      return Thrown, rest;
    }
    var toCopy: uint64 := Min(remaining, runBytes.value);
    if run.sparse {
      var ok := WriteZeros(out, toCopy);
      return if ok then Done else Thrown, remaining - toCopy;
    }
    var sourceOffset := CheckedMul(run.lcn, clusterSize);
    if sourceOffset.None? {
      return Thrown, rest;
    }
    r := CopyStored(source, sourceOffset.value, toCopy, out, buffer);
    rest := remaining - toCopy;
  }

  lemma ThenJoins(a: seq<byte>, b: seq<byte>, rest: Outcome)
    ensures Then(a, Then(b, rest)) == Then(a + b, rest)
  {
    if rest.Copied? { Regroup(a, b, rest.bytes); }
  }

  lemma ThenNothing(o: Outcome)
    ensures Then([], o) == o
  {
    if o.Copied? { NothingAdded(o.bytes); }
  }

  /** `copied` is the outcome so far, and the runs from `k` on remain. */
  ghost predicate CopiedUpTo(o: Outcome, d: Device, runs: seq<DataRun>, clusterSize: uint64, k: nat, remaining: nat,
                             copied: seq<byte>)
    requires k <= |runs|
  {
    o == Then(copied, CopyOutcome(d, runs[k..], clusterSize, remaining))
  }

  lemma CopyStep(o: Outcome, d: Device, runs: seq<DataRun>, clusterSize: uint64, k: nat, remaining: nat,
                 copied: seq<byte>, first: Outcome)
    requires k < |runs| && remaining > 0 && CopiedUpTo(o, d, runs, clusterSize, k, remaining, copied)
    requires first == RunOutcome(d, runs[k], clusterSize, remaining)
    ensures first.Copied? ==>
              CopiedUpTo(o, d, runs, clusterSize, k + 1, remaining - |first.bytes|, copied + first.bytes)
    ensures !first.Copied? ==> o == first
  {
    assert runs[k..][1..] == runs[k + 1..];
    if first.Copied? {
      ThenJoins(copied, first.bytes, CopyOutcome(d, runs[k + 1..], clusterSize, remaining - |first.bytes|));
    }
  }

  lemma CopyEnds(o: Outcome, d: Device, runs: seq<DataRun>, clusterSize: uint64, k: nat, remaining: nat,
                 copied: seq<byte>)
    requires k <= |runs| && (remaining == 0 || k == |runs|) && CopiedUpTo(o, d, runs, clusterSize, k, remaining, copied)
    ensures o == if remaining == 0 then Copied(copied) else Incomplete
  {
    NothingAdded(copied);
  }

  /** The body of the loop of `CopyNonresident`, for run `k`. */
  method CopyNext(source: Source, runs: seq<DataRun>, k: nat, clusterSize: uint64, remaining: uint64, out: AtomicFile,
                  buffer: array<byte>, ghost o: Outcome, ghost copied: seq<byte>)
    returns (r: CopyResult, rest: uint64, ghost more: seq<byte>)
    requires out.Valid() && out.fdOpen && 0 < buffer.Length && k < |runs| && 0 < remaining
    requires CopiedUpTo(o, source.device, runs, clusterSize, k, remaining, copied)
    modifies source`interruptions, buffer, out.fs, out`content
    ensures out.Valid() && out.fdOpen
    ensures r.Done? ==> out.content == old(out.content) + more
                        && CopiedUpTo(o, source.device, runs, clusterSize, k + 1, rest, copied + more)
    ensures r.NotDone? ==> o.Incomplete?
    ensures r.Thrown? ==> o.Overflow? || !out.fs.quiet
  {
    ghost var first := RunOutcome(source.device, runs[k], clusterSize, remaining);
    CopyStep(o, source.device, runs, clusterSize, k, remaining, copied, first);
    more := if first.Copied? then first.bytes else [];
    r, rest := CopyRun(source, runs[k], clusterSize, remaining, out, buffer);
  }

  /** Main result: copying does what the run-by-run outcome says, whatever the chunks, short reads and short writes;
      an exception that the outcome does not predict comes from a failed write. */
  method CopyNonresident(source: Source, runs: seq<DataRun>, clusterSize: uint64, bytesToCopy: uint64, out: AtomicFile)
    returns (r: CopyResult)
    requires out.Valid() && out.fdOpen
    modifies source`interruptions, out.fs, out`content
    ensures out.Valid() && out.fdOpen
    ensures var o := CopyOutcome(source.device, runs, clusterSize, bytesToCopy);
            && (r.Done? ==> o.Copied? && out.content == old(out.content) + o.bytes)
            && (r.NotDone? ==> o.Incomplete?)
            && (r.Thrown? ==> o.Overflow? || !out.fs.quiet)
  {
    var buffer := new byte[CHUNK](_ => 0);
    var remaining: uint64 := bytesToCopy;
    ghost var d, copied := source.device, [];
    ghost var o := CopyOutcome(d, runs, clusterSize, bytesToCopy);
    ThenNothing(o);
    assert runs[0..] == runs;
    for k := 0 to |runs|
      invariant out.Valid() && out.fdOpen && out.content == old(out.content) + copied
      invariant CopiedUpTo(o, d, runs, clusterSize, k, remaining, copied)
    {
      if remaining == 0 {
        CopyEnds(o, d, runs, clusterSize, k, remaining, copied);
        return Done;
      }
      ghost var more;
      r, remaining, more := CopyNext(source, runs, k, clusterSize, remaining, out, buffer, o, copied);
      if !r.Done? {
        return;
      }
      Regroup(old(out.content), copied, more);
      copied := copied + more;
    }
    CopyEnds(o, d, runs, clusterSize, |runs|, remaining, copied);
    return if remaining == 0 then Done else NotDone;
  }
}
